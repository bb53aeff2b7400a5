/**
 * `guessXMLRPCURLForSite` and the two fallbacks it reaches for: the page's
 * RSD link (`guessXMLRPCURLFromHTMLURL`) and the RSD document it points to
 * (`guessXMLRPCURLFromRSD`). Each completion handler becomes the `Outcome`
 * of a `Run`; the calls made on the way are its trace.
 */
module Discovery {
  import opened Wrappers
  import opened Text
  import opened Urls
  import opened Errors
  import opened Oracle
  import opened Normalization
  import opened Probe
  import opened RsdLink

  /** The catch-all error every fallback reports. */
  const InvalidError: NSError := ConvertToNSError(Invalid)

  /** What the page's RSD address loses to become an XML-RPC address. */
  const RsdQuery: string := "?rsd"

  /**
   * The run ends with a probe of some address whose response listed
   * `wp.getUsersBlogs` and came from `url`.
   */
  predicate ConfirmedBy(net: Network, trace: seq<Stage>, url: Url)
  {
    trace != [] && trace[|trace| - 1].ListMethods? && FinishesWith(net, trace[|trace| - 1].url, Succeeded(url))
  }

  /** What confirmation means: the last address probed answered as a WordPress endpoint at `url`. */
  lemma ConfirmedMeansListed(net: Network, trace: seq<Stage>, url: Url)
    requires ConfirmedBy(net, trace, url)
    ensures var reply := net.listMethods(trace[|trace| - 1].url);
            && reply.ListMethodsOk? && ListsWordPressMethods(reply.response)
            && ResponseURL(reply.http) == Some(url)
  {
  }

  /** A successful probe is confirmed by the last address it probed. */
  lemma ProbeSuccessConfirmed(net: Network, url: Url, prefix: seq<Stage>)
    requires ValidateXMLRPCURL(net, url, 0).outcome.Succeeded?
    ensures var probe := ValidateXMLRPCURL(net, url, 0);
            ConfirmedBy(net, prefix + probe.trace, probe.outcome.url)
  {
    var probe := ValidateXMLRPCURL(net, url, 0);
    var last := probe.trace[|probe.trace| - 1];
    assert last.ListMethods? && FinishesWith(net, last.url, probe.outcome);
    var t := prefix + probe.trace;
    assert t[|t| - 1] == last;
  }

  /** No stage of the trace asks the Jetpack service. */
  predicate NoJetpackCheck(trace: seq<Stage>)
  {
    forall i :: 0 <= i < |trace| ==> !trace[i].CheckJetpack?
  }

  /** One call that is not the Jetpack question, in front of calls that are not either. */
  lemma InFrontNoJetpack(stage: Stage, trace: seq<Stage>)
    requires !stage.CheckJetpack? && (OnlyProbes(trace) || NoJetpackCheck(trace))
    ensures NoJetpackCheck([stage] + trace)
  {
    assert forall i :: 1 <= i <= |trace| ==> ([stage] + trace)[i] == trace[i - 1];
  }

  /** The endpoint named by a fetched RSD document, when the body decodes, parses and names an address. */
  function RSDEndpoint(net: Network, text: Option<string>): (r: Option<Url>)
    ensures r.Some? <==> text.Some? && net.parseRSD(text.value).Some? && IsURL(net.parseRSD(text.value).value)
    ensures r.Some? ==> r.value == net.parseRSD(text.value).value
  {
    match text
    case None => None
    case Some(body) =>
      match net.parseRSD(body)
      case None => None
      case Some(endpoint) => if IsURL(endpoint) then Some(endpoint) else None
  }

  /**
   * Fetch the RSD document at `rsd` and probe the endpoint it names. An
   * address that does not parse fails at once; a failed fetch is passed on;
   * a document without a usable endpoint is invalid; otherwise the probe
   * decides, and its failure is passed on as it is.
   */
  function GuessXMLRPCURLFromRSD(net: Network, rsd: string): (r: Run)
    ensures r.trace == [] <==> !IsURL(rsd)
    ensures r.trace == [] ==> r.outcome == Failed(InvalidError)
    ensures r.trace != [] ==>
              && r.trace[0] == FetchRSD(rsd)
              && OnlyProbes(r.trace[1..]) && IsRedirectChain(net, r.trace[1..])
    ensures |r.trace| == 1 ==>
              r.outcome.Failed? && (r.outcome.error == InvalidError || net.fetch(rsd) == FetchFailed(r.outcome.error))
    ensures |r.trace| > 1 ==>
              && net.fetch(rsd).Fetched?
              && RSDEndpoint(net, net.fetch(rsd).text) == Some(r.trace[1].url)
              && r.outcome == ValidateXMLRPCURL(net, r.trace[1].url, 0).outcome
    ensures r.outcome.Succeeded? ==> ConfirmedBy(net, r.trace, r.outcome.url)
    ensures NoJetpackCheck(r.trace)
  {
    if !IsURL(rsd) then Run(Failed(InvalidError), [])
    else
      match net.fetch(rsd)
      case FetchFailed(error) => Run(Failed(error), [FetchRSD(rsd)])
      case Fetched(text) =>
        match RSDEndpoint(net, text)
        case None => Run(Failed(InvalidError), [FetchRSD(rsd)])
        case Some(endpoint) =>
          var probe := ValidateXMLRPCURL(net, endpoint, 0);
          assert ([FetchRSD(rsd)] + probe.trace)[1..] == probe.trace;
          InFrontNoJetpack(FetchRSD(rsd), probe.trace);
          if probe.outcome.Succeeded? then
            ProbeSuccessConfirmed(net, endpoint, [FetchRSD(rsd)]);
            Run(probe.outcome, [FetchRSD(rsd)] + probe.trace)
          else Run(probe.outcome, [FetchRSD(rsd)] + probe.trace)
  }

  /** A failed fetch of the RSD document is reported as it is, after that one call. */
  lemma RSDFetchFailurePassedOn(net: Network, rsd: string)
    requires IsURL(rsd) && net.fetch(rsd).FetchFailed?
    ensures GuessXMLRPCURLFromRSD(net, rsd) == Run(Failed(net.fetch(rsd).error), [FetchRSD(rsd)])
  {
  }

  /** A fetched document without a usable endpoint is invalid, after the fetch alone. */
  lemma RSDWithoutEndpointInvalid(net: Network, rsd: string)
    requires IsURL(rsd) && net.fetch(rsd).Fetched? && RSDEndpoint(net, net.fetch(rsd).text).None?
    ensures GuessXMLRPCURLFromRSD(net, rsd) == Run(Failed(InvalidError), [FetchRSD(rsd)])
  {
  }

  /** The endpoint a fetched document names is probed, and the probe's outcome is reported as it is. */
  lemma RSDEndpointProbed(net: Network, rsd: string, endpoint: Url)
    requires IsURL(rsd) && net.fetch(rsd).Fetched? && RSDEndpoint(net, net.fetch(rsd).text) == Some(endpoint)
    ensures var probe := ValidateXMLRPCURL(net, endpoint, 0);
            GuessXMLRPCURLFromRSD(net, rsd) == Run(probe.outcome, [FetchRSD(rsd)] + probe.trace)
  {
  }

  /** The RSD address on the page, when the body decodes and holds a link. */
  function PageLink(text: Option<string>): Option<string>
  {
    if text.Some? then ExtractRSDURLFromHTML(text.value) else None
  }

  /**
   * Fetch the page at `htmlURL` and follow its RSD link. When the link
   * carries `?rsd`, the address without it is probed directly and any
   * failure is reported as invalid; otherwise the RSD document is read.
   */
  function GuessXMLRPCURLFromHTMLURL(net: Network, htmlURL: Url): (r: Run)
    ensures r.trace != [] && r.trace[0] == FetchHTML(htmlURL)
    ensures |r.trace| == 1 ==>
              r.outcome.Failed? && (r.outcome.error == InvalidError || net.fetch(htmlURL) == FetchFailed(r.outcome.error))
    ensures |r.trace| > 1 ==>
              && net.fetch(htmlURL).Fetched?
              && PageLink(net.fetch(htmlURL).text).Some?
    ensures |r.trace| > 1 && r.trace[1].ListMethods? ==>
              var link := PageLink(net.fetch(htmlURL).text).value;
              && Contains(link, RsdQuery)
              && r.trace[1].url == RemoveAll(link, RsdQuery)
              && OnlyProbes(r.trace[1..]) && IsRedirectChain(net, r.trace[1..])
              && (r.outcome.Failed? ==> r.outcome.error == InvalidError)
    ensures |r.trace| > 1 && !r.trace[1].ListMethods? ==>
              var link := PageLink(net.fetch(htmlURL).text).value;
              && !Contains(link, RsdQuery)
              && r.trace[1..] == GuessXMLRPCURLFromRSD(net, link).trace
              && r.outcome == GuessXMLRPCURLFromRSD(net, link).outcome
    ensures r.outcome.Succeeded? ==> ConfirmedBy(net, r.trace, r.outcome.url)
    ensures NoJetpackCheck(r.trace)
  {
    var head := [FetchHTML(htmlURL)];
    match net.fetch(htmlURL)
    case FetchFailed(error) => Run(Failed(error), head)
    case Fetched(text) =>
      match PageLink(text)
      case None => Run(Failed(InvalidError), head)
      case Some(rsd) =>
        var xmlrpc := RemoveAll(rsd, RsdQuery);
        RemoveAllUnchangedIff(rsd, RsdQuery);
        if xmlrpc != rsd then
          if !IsURL(xmlrpc) then Run(Failed(InvalidError), head)
          else
            var probe := ValidateXMLRPCURL(net, xmlrpc, 0);
            assert (head + probe.trace)[1..] == probe.trace;
            InFrontNoJetpack(FetchHTML(htmlURL), probe.trace);
            if probe.outcome.Succeeded? then
              ProbeSuccessConfirmed(net, xmlrpc, head);
              Run(probe.outcome, head + probe.trace)
            else Run(Failed(InvalidError), head + probe.trace)
        else
          var rest := GuessXMLRPCURLFromRSD(net, rsd);
          assert (head + rest.trace)[1..] == rest.trace;
          InFrontNoJetpack(FetchHTML(htmlURL), rest.trace);
          assert rest.outcome.Succeeded? ==>
                   (head + rest.trace)[|head + rest.trace| - 1] == rest.trace[|rest.trace| - 1];
          Run(rest.outcome, head + rest.trace)
  }

  /** A failed fetch of the page is reported as it is, after that one call. */
  lemma PageFetchFailurePassedOn(net: Network, htmlURL: Url)
    requires net.fetch(htmlURL).FetchFailed?
    ensures GuessXMLRPCURLFromHTMLURL(net, htmlURL) == Run(Failed(net.fetch(htmlURL).error), [FetchHTML(htmlURL)])
  {
  }

  /** A fetched page without an RSD link is invalid, after the fetch alone. */
  lemma PageWithoutLinkInvalid(net: Network, htmlURL: Url)
    requires net.fetch(htmlURL).Fetched? && PageLink(net.fetch(htmlURL).text).None?
    ensures GuessXMLRPCURLFromHTMLURL(net, htmlURL) == Run(Failed(InvalidError), [FetchHTML(htmlURL)])
  {
  }

  /**
   * A link that loses something when every `?rsd` is removed from it is
   * probed without them, straight after the page fetch: the probe's
   * success is reported as it is and any failure as invalid. An address
   * that no longer parses is invalid without a probe.
   */
  lemma StrippedLinkProbed(net: Network, htmlURL: Url, link: string)
    requires net.fetch(htmlURL).Fetched? && PageLink(net.fetch(htmlURL).text) == Some(link)
    requires RemoveAll(link, RsdQuery) != link
    ensures var xmlrpc := RemoveAll(link, RsdQuery);
            var r := GuessXMLRPCURLFromHTMLURL(net, htmlURL);
            && (!IsURL(xmlrpc) ==> r == Run(Failed(InvalidError), [FetchHTML(htmlURL)]))
            && (IsURL(xmlrpc) ==>
                  var probe := ValidateXMLRPCURL(net, xmlrpc, 0);
                  && r.trace == [FetchHTML(htmlURL)] + probe.trace
                  && r.outcome == (if probe.outcome.Succeeded? then probe.outcome else Failed(InvalidError)))
  {
  }

  /** A link with no `?rsd` in it is read as an RSD document right after the page fetch. */
  lemma UnchangedLinkReadAsRSD(net: Network, htmlURL: Url, link: string)
    requires net.fetch(htmlURL).Fetched? && PageLink(net.fetch(htmlURL).text) == Some(link)
    requires RemoveAll(link, RsdQuery) == link
    ensures var rest := GuessXMLRPCURLFromRSD(net, link);
            GuessXMLRPCURLFromHTMLURL(net, htmlURL) == Run(rest.outcome, [FetchHTML(htmlURL)] + rest.trace)
  {
  }

  /**
   * A page carrying the RSD link WordPress writes, with an address that
   * ends in `?rsd`, leads to a probe of the address without it, right
   * after the page fetch.
   */
  lemma PageLinkLeadsToProbe(net: Network, htmlURL: Url, before: string, xmlrpc: Url, after: string)
    requires net.fetch(htmlURL) == Fetched(Some(before + RsdLinkTag(xmlrpc + RsdQuery) + after))
    requires forall k :: 0 <= k < |before| ==> !IsTagAt(before + RsdLinkTag(xmlrpc + RsdQuery) + after, k)
    requires IsURL(xmlrpc) && '?' !in xmlrpc
    ensures var r := GuessXMLRPCURLFromHTMLURL(net, htmlURL);
            var probe := ValidateXMLRPCURL(net, xmlrpc, 0);
            && r.trace == [FetchHTML(htmlURL)] + probe.trace
            && r.outcome == (if probe.outcome.Succeeded? then probe.outcome else Failed(InvalidError))
  {
    var link := xmlrpc + RsdQuery;
    assert '"' !in link;
    ExtractWrittenLink(before, link, after);
    RemoveAllTrailing(xmlrpc, RsdQuery);
    assert RemoveAll(link, RsdQuery) != link;
    StrippedLinkProbed(net, htmlURL, link);
  }

  /** A `?rsd` in the middle of a link is removed too, and the rest of the link kept. */
  lemma MidLinkQueryStripped()
    ensures RemoveAll("x.com/xmlrpc.php?rsd&a=b", RsdQuery) == "x.com/xmlrpc.php&a=b"
  {
    RemoveAllAfterPlain("x.com/xmlrpc.php", RsdQuery, "&a=b");
    assert "x.com/xmlrpc.php" + RsdQuery + "&a=b" == "x.com/xmlrpc.php?rsd&a=b";
    RemoveAllPlain("&a=b", RsdQuery);
    assert "x.com/xmlrpc.php" + "&a=b" == "x.com/xmlrpc.php&a=b";
  }

  /** The error with `UserInfoHasJetpackKey` set, everything else kept. */
  function WithJetpackFlag(error: NSError): (r: NSError)
    ensures SameKind(r, error) && r.userInfo.responseText == error.userInfo.responseText
    ensures r.userInfo.hasJetpack
  {
    NSError(error.domain, error.code, UserInfo(error.userInfo.responseText, true))
  }

  /**
   * The last step of a failed discovery: ask the Jetpack service about the
   * typed address and, when it answers yes, mark the error. The error is
   * kept as it is when the service cannot be created or the check fails.
   */
  function EnrichWithJetpack(net: Network, userAgent: string, originalURL: Url, error: NSError): (r: Run)
    ensures r.outcome.Failed? && SameKind(r.outcome.error, error)
    ensures r.outcome.error.userInfo.responseText == error.userInfo.responseText
    ensures r.outcome.error.userInfo.hasJetpack
            <==> error.userInfo.hasJetpack
                 || (net.jetpackService(userAgent) && net.checkSiteHasJetpack(originalURL) == JetpackChecked(true))
    ensures r.trace == [] <==> !net.jetpackService(userAgent)
    ensures r.trace != [] ==> r.trace == [CheckJetpack(originalURL)]
  {
    if !net.jetpackService(userAgent) then Run(Failed(error), [])
    else
      match net.checkSiteHasJetpack(originalURL)
      case JetpackCheckFailed => Run(Failed(error), [CheckJetpack(originalURL)])
      case JetpackChecked(hasJetpack) =>
        Run(Failed(if hasJetpack then WithJetpackFlag(error) else error), [CheckJetpack(originalURL)])
  }

  /** The Jetpack service is asked, if at all, by the last call, about `originalURL`, and only in a failed run. */
  predicate JetpackLast(trace: seq<Stage>, outcome: Outcome, originalURL: Url)
  {
    forall i :: 0 <= i < |trace| && trace[i].CheckJetpack? ==>
      i == |trace| - 1 && outcome.Failed? && trace[i].url == originalURL
  }

  /** The run `a` followed by the run `b`: `b` decides the outcome. */
  function Then(a: Run, b: Run): (r: Run)
    ensures r.outcome == b.outcome && |r.trace| == |a.trace| + |b.trace|
    ensures r.trace[..|a.trace|] == a.trace && r.trace[|a.trace|..] == b.trace
  {
    Run(b.outcome, a.trace + b.trace)
  }

  /** The calls of the second run follow those of the first. */
  lemma ThenAt(a: Run, b: Run, i: nat)
    requires i < |b.trace|
    ensures |Then(a, b).trace| > |a.trace| + i && Then(a, b).trace[|a.trace| + i] == b.trace[i]
  {
    var t := Then(a, b).trace;
    assert t[|a.trace|..][i] == b.trace[i];
  }

  /** A run that ends in a confirming probe still does after something is put in front of it. */
  lemma ThenConfirmed(net: Network, a: Run, b: Run)
    requires b.outcome.Succeeded? && ConfirmedBy(net, b.trace, b.outcome.url)
    ensures ConfirmedBy(net, Then(a, b).trace, b.outcome.url)
  {
    var t := Then(a, b).trace;
    assert t[|t| - 1] == b.trace[|b.trace| - 1];
  }

  /** Putting calls that do not ask the Jetpack service in front keeps it last. */
  lemma ThenJetpackLast(a: Run, b: Run, originalURL: Url)
    requires NoJetpackCheck(a.trace) && JetpackLast(b.trace, b.outcome, originalURL)
    ensures JetpackLast(Then(a, b).trace, b.outcome, originalURL)
  {
    var t := Then(a, b).trace;
    assert forall i :: 0 <= i < |a.trace| ==> t[i] == a.trace[i];
    assert forall i :: |a.trace| <= i < |t| ==> t[i] == b.trace[i - |a.trace|];
  }

  lemma ProbesAskNoJetpack(trace: seq<Stage>, outcome: Outcome, originalURL: Url)
    requires OnlyProbes(trace)
    ensures NoJetpackCheck(trace) && JetpackLast(trace, outcome, originalURL)
  {
  }

  /**
   * What is left once the page gave no endpoint either: the Jetpack
   * question is asked about the typed address and decides the error.
   */
  function AfterPage(net: Network, userAgent: string, originalURL: Url, page: Run): (r: Run)
    ensures r.outcome.Succeeded? <==> page.outcome.Succeeded?
    ensures page.outcome.Succeeded? ==> r == page
    ensures page.outcome.Failed? ==>
              && |r.trace| >= |page.trace| && r.trace[..|page.trace|] == page.trace
              && r.trace[|page.trace|..] == EnrichWithJetpack(net, userAgent, originalURL, page.outcome.error).trace
              && r.outcome == EnrichWithJetpack(net, userAgent, originalURL, page.outcome.error).outcome
    ensures NoJetpackCheck(page.trace) ==> JetpackLast(r.trace, r.outcome, originalURL)
    ensures page.trace != [] ==> r.trace != [] && r.trace[0] == page.trace[0]
  {
    if page.outcome.Succeeded? then page
    else
      var last := EnrichWithJetpack(net, userAgent, originalURL, page.outcome.error);
      if NoJetpackCheck(page.trace) then
        ThenJetpackLast(page, last, originalURL);
        Then(page, last)
      else Then(page, last)
  }

  /**
   * Everything after the augmented address failed: probe the typed
   * address, then the page's RSD link, then the Jetpack question.
   */
  function FromTypedAddress(net: Network, userAgent: string, originalURL: Url): (r: Run)
    ensures r.trace != [] && r.trace[0] == ListMethods(originalURL)
    ensures ValidateXMLRPCURL(net, originalURL, 0).outcome.Succeeded? ==> r == ValidateXMLRPCURL(net, originalURL, 0)
    ensures r.outcome.Succeeded? ==> ConfirmedBy(net, r.trace, r.outcome.url)
    ensures JetpackLast(r.trace, r.outcome, originalURL)
  {
    var second := ValidateXMLRPCURL(net, originalURL, 0);
    ProbesAskNoJetpack(second.trace, second.outcome, originalURL);
    if second.outcome.Succeeded? then
      ProbeSuccessConfirmed(net, originalURL, []);
      assert [] + second.trace == second.trace;
      second
    else
      var page := GuessXMLRPCURLFromHTMLURL(net, originalURL);
      var rest := AfterPage(net, userAgent, originalURL, page);
      ThenJetpackLast(second, rest, originalURL);
      if rest.outcome.Succeeded? then
        ThenConfirmed(net, second, rest);
        Then(second, rest)
      else Then(second, rest)
  }

  /**
   * Discovery from the two candidates: the augmented address is probed
   * first and ends discovery when it succeeds or fails for a reason that
   * ends discovery; otherwise the typed address takes over.
   */
  function Discover(net: Network, userAgent: string, xmlrpcURL: Url, originalURL: Url): (r: Run)
    ensures r.trace != [] && r.trace[0] == ListMethods(xmlrpcURL)
    ensures r.outcome.Succeeded? ==> ConfirmedBy(net, r.trace, r.outcome.url)
    ensures JetpackLast(r.trace, r.outcome, originalURL)
  {
    var first := ValidateXMLRPCURL(net, xmlrpcURL, 0);
    ProbesAskNoJetpack(first.trace, first.outcome, originalURL);
    if first.outcome.Succeeded? then
      ProbeSuccessConfirmed(net, xmlrpcURL, []);
      assert [] + first.trace == first.trace;
      first
    else if EndsDiscovery(first.outcome.error) then first
    else
      var rest := FromTypedAddress(net, userAgent, originalURL);
      ThenJetpackLast(first, rest, originalURL);
      if rest.outcome.Succeeded? then
        ThenConfirmed(net, first, rest);
        Then(first, rest)
      else Then(first, rest)
  }

  /**
   * Discovery for a typed site address: both candidates are formed first,
   * and a refused address fails before any call is made.
   */
  function GuessXMLRPCURLForSite(net: Network, site: string, userAgent: string): (r: Run)
    ensures UrlForXMLRPC(site, true).Failure? ==> r == Run(Failed(UrlForXMLRPC(site, true).error), [])
    ensures UrlForXMLRPC(site, true).Success? ==>
              && UrlForXMLRPC(site, false).Success?
              && r == Discover(net, userAgent, UrlForXMLRPC(site, true).value, UrlForXMLRPC(site, false).value)
  {
    CandidatesFailTogether(site);
    match UrlForXMLRPC(site, true)
    case Failure(error) => Run(Failed(error), [])
    case Success(xmlrpcURL) => Discover(net, userAgent, xmlrpcURL, UrlForXMLRPC(site, false).value)
  }

  /** Discovery stops before any network call exactly when the typed address is refused, and only for its form. */
  lemma EarlyExit(net: Network, site: string, userAgent: string)
    ensures var r := GuessXMLRPCURLForSite(net, site, userAgent);
            && (r.trace == [] <==> UrlForXMLRPC(site, true).Failure?)
            && (r.trace == [] ==>
                  && r.outcome.Failed?
                  && r.outcome.error in {ConvertToNSError(EmptyURL), ConvertToNSError(InvalidURL), ConvertToNSError(InvalidScheme)})
  {
    NormalizationOutcomes(site, true);
  }

  /**
   * A successful discovery was confirmed by its last call, a probe whose
   * response listed `wp.getUsersBlogs`, and never asked the Jetpack
   * service; a discovery that asks it does so once, about the typed
   * address, as its last call, and fails.
   */
  lemma SiteOutcomes(net: Network, site: string, userAgent: string)
    ensures var r := GuessXMLRPCURLForSite(net, site, userAgent);
            && (r.outcome.Succeeded? ==> ConfirmedBy(net, r.trace, r.outcome.url) && NoJetpackCheck(r.trace))
            && (forall i :: 0 <= i < |r.trace| && r.trace[i].CheckJetpack? ==>
                  && i == |r.trace| - 1 && r.outcome.Failed?
                  && r.trace[i].url == UrlForXMLRPC(site, false).value)
  {
    CandidatesFailTogether(site);
  }

  /**
   * The augmented address is probed first, and discovery ends with that
   * probe exactly when it succeeds or fails for a reason that ends
   * discovery; otherwise the typed address is probed right after it.
   */
  lemma FirstProbeDecides(net: Network, userAgent: string, xmlrpcURL: Url, originalURL: Url)
    ensures var r := Discover(net, userAgent, xmlrpcURL, originalURL);
            var first := ValidateXMLRPCURL(net, xmlrpcURL, 0);
            && (r == first <==> first.outcome.Succeeded? || EndsDiscovery(first.outcome.error))
            && (r != first ==>
                  && r == Then(first, FromTypedAddress(net, userAgent, originalURL))
                  && r.outcome == FromTypedAddress(net, userAgent, originalURL).outcome
                  && r.trace[..|first.trace|] == first.trace
                  && r.trace[|first.trace|] == ListMethods(originalURL))
  {
    var r := Discover(net, userAgent, xmlrpcURL, originalURL);
    var first := ValidateXMLRPCURL(net, xmlrpcURL, 0);
    if !(first.outcome.Succeeded? || EndsDiscovery(first.outcome.error)) {
      var rest := FromTypedAddress(net, userAgent, originalURL);
      assert r == Then(first, rest);
      assert r.trace[|first.trace|..][0] == rest.trace[0];
    }
  }

  /**
   * When the typed address fails as well, the page is fetched right after
   * its probe, and the page decides whether discovery succeeds.
   */
  lemma PageAfterTypedAddress(net: Network, userAgent: string, originalURL: Url)
    requires ValidateXMLRPCURL(net, originalURL, 0).outcome.Failed?
    ensures var r := FromTypedAddress(net, userAgent, originalURL);
            var k := |ValidateXMLRPCURL(net, originalURL, 0).trace|;
            && |r.trace| > k && r.trace[k] == FetchHTML(originalURL)
            && (r.outcome.Succeeded? <==> GuessXMLRPCURLFromHTMLURL(net, originalURL).outcome.Succeeded?)
  {
    var second := ValidateXMLRPCURL(net, originalURL, 0);
    var page := GuessXMLRPCURLFromHTMLURL(net, originalURL);
    var rest := AfterPage(net, userAgent, originalURL, page);
    assert FromTypedAddress(net, userAgent, originalURL) == Then(second, rest);
    ThenAt(second, rest, 0);
  }

  /**
   * When the typed address fails too, its probes are followed by the page
   * step and the Jetpack step, and the typed address's own error is
   * dropped: the run reports what those later steps report.
   */
  lemma TypedAddressFallsThrough(net: Network, userAgent: string, originalURL: Url)
    requires ValidateXMLRPCURL(net, originalURL, 0).outcome.Failed?
    ensures var page := GuessXMLRPCURLFromHTMLURL(net, originalURL);
            var rest := AfterPage(net, userAgent, originalURL, page);
            && FromTypedAddress(net, userAgent, originalURL) == Then(ValidateXMLRPCURL(net, originalURL, 0), rest)
            && FromTypedAddress(net, userAgent, originalURL).outcome == rest.outcome
  {
  }

  /**
   * A discovery that gets past the first probe and then fails everywhere
   * reports the page step's error, as the Jetpack step leaves it; neither
   * probe's error reaches the caller.
   */
  lemma FallThroughReportsPageError(net: Network, userAgent: string, xmlrpcURL: Url, originalURL: Url)
    requires ValidateXMLRPCURL(net, xmlrpcURL, 0).outcome.Failed?
    requires !EndsDiscovery(ValidateXMLRPCURL(net, xmlrpcURL, 0).outcome.error)
    requires ValidateXMLRPCURL(net, originalURL, 0).outcome.Failed?
    requires GuessXMLRPCURLFromHTMLURL(net, originalURL).outcome.Failed?
    ensures var page := GuessXMLRPCURLFromHTMLURL(net, originalURL);
            Discover(net, userAgent, xmlrpcURL, originalURL).outcome
            == EnrichWithJetpack(net, userAgent, originalURL, page.outcome.error).outcome
  {
    FirstProbeDecides(net, userAgent, xmlrpcURL, originalURL);
    TypedAddressFallsThrough(net, userAgent, originalURL);
  }

  /** A failure reported before the page is fetched is one of those that end discovery at once. */
  lemma ProbeOnlyFailureEndsDiscovery(net: Network, userAgent: string, xmlrpcURL: Url, originalURL: Url)
    ensures var r := Discover(net, userAgent, xmlrpcURL, originalURL);
            r.outcome.Failed? && OnlyProbes(r.trace) ==> EndsDiscovery(r.outcome.error)
  {
    var r := Discover(net, userAgent, xmlrpcURL, originalURL);
    var first := ValidateXMLRPCURL(net, xmlrpcURL, 0);
    if r.outcome.Failed? && !(first.outcome.Succeeded? || EndsDiscovery(first.outcome.error)) {
      var rest := FromTypedAddress(net, userAgent, originalURL);
      var second := ValidateXMLRPCURL(net, originalURL, 0);
      assert r == Then(first, rest);
      assert second.outcome.Failed?;
      PageAfterTypedAddress(net, userAgent, originalURL);
      var k := |first.trace| + |second.trace|;
      ThenAt(first, rest, |second.trace|);
      assert !r.trace[k].ListMethods?;
    }
  }

  /**
   * When the augmented address answers at once as a WordPress endpoint,
   * discovery succeeds with the address the answer came from after a
   * single call.
   */
  lemma ImmediateSuccess(net: Network, site: string, userAgent: string, methods: seq<string>, at: Url, status: int)
    requires UrlForXMLRPC(site, true).Success?
    requires GetUsersBlogs in methods
    requires net.listMethods(UrlForXMLRPC(site, true).value)
             == ListMethodsOk(StringArray(methods), Some(HTTPResponse(Some(at), status)))
    ensures GuessXMLRPCURLForSite(net, site, userAgent)
            == Run(Succeeded(at), [ListMethods(UrlForXMLRPC(site, true).value)])
  {
  }
}
