/**
 * `validateXMLRPCURL`: ask a candidate endpoint for `system.listMethods`,
 * follow same-host `405` redirects up to the redirect limit, and recognise
 * a DudaMobile page that has taken the site over.
 */
module Probe {
  import opened Wrappers
  import opened Text
  import opened Urls
  import opened Errors
  import opened Oracle

  /** The default number of redirects `URLSession` allows, which the validator copies. */
  const RedirectLimit: nat := 16

  /** The method only a WordPress XML-RPC endpoint lists. */
  const GetUsersBlogs: string := "wp.getUsersBlogs"

  /** What a page hijacked by the DudaMobile plugin contains, either of these. */
  const DudaGeneratorTag: string := "<meta name=\"GENERATOR\" content=\"www.dudamobile.com\">"
  const DudaNotFoundMarker: string := "dm404Container"

  const MethodNotAllowed: int := 405

  /** The reply's method list is an array of strings naming `wp.getUsersBlogs`. */
  predicate ListsWordPressMethods(response: ResponseObject)
  {
    response.StringArray? && GetUsersBlogs in response.strings
  }

  /** The body carried by a failed call is a DudaMobile page. */
  predicate IsDudaMobilePage(error: NSError)
  {
    match error.userInfo.responseText
    case None => false
    case Some(text) => Contains(text, DudaGeneratorTag) || Contains(text, DudaNotFoundMarker)
  }

  /** What one probe does with its reply: finish, or try again at the address it was sent to. */
  datatype Step = Finish(outcome: Outcome) | RetryAt(next: Url)

  /**
   * One probe of `url`. A reply that lists `wp.getUsersBlogs` succeeds at
   * the address the response came from; a failed call that was redirected
   * to a DudaMobile page is reported as such; one redirected to the same
   * host with `405 Method Not Allowed` is retried at the new address; any
   * other failure is passed on as it is.
   */
  function ProbeStep(url: Url, reply: ListMethodsReply): (s: Step)
    ensures s.Finish? && s.outcome.Succeeded?
            <==> reply.ListMethodsOk? && ListsWordPressMethods(reply.response) && ResponseURL(reply.http).Some?
    ensures s.Finish? && s.outcome.Succeeded? ==> s.outcome.url == ResponseURL(reply.http).value
    ensures s.RetryAt? <==>
              && reply.ListMethodsFailed?
              && ResponseURL(reply.http).Some? && ResponseURL(reply.http).value != url
              && !IsDudaMobilePage(reply.error)
              && HostOf(ResponseURL(reply.http).value) == HostOf(url)
              && StatusCode(reply.http) == Some(MethodNotAllowed)
    ensures s.RetryAt? ==> Some(s.next) == ResponseURL(reply.http)
    ensures s.Finish? && s.outcome.Failed? ==>
              || s.outcome.error == ConvertToNSError(NotWordPressError)
              || s.outcome.error == ConvertToNSError(Invalid)
              || s.outcome.error == ConvertToNSError(MobilePluginRedirectedError)
              || (reply.ListMethodsFailed? && s.outcome.error == reply.error)
    ensures reply.ListMethodsFailed? && ResponseURL(reply.http) == Some(url) ==> s == Finish(Failed(reply.error))
    ensures reply.ListMethodsOk? && !ListsWordPressMethods(reply.response)
            ==> s == Finish(Failed(ConvertToNSError(NotWordPressError)))
    ensures reply.ListMethodsOk? && ListsWordPressMethods(reply.response) && ResponseURL(reply.http).None?
            ==> s == Finish(Failed(ConvertToNSError(Invalid)))
    ensures reply.ListMethodsFailed? && ResponseURL(reply.http) != Some(url) && IsDudaMobilePage(reply.error)
            ==> s == Finish(Failed(ConvertToNSError(MobilePluginRedirectedError)))
    ensures (&& reply.ListMethodsFailed? && ResponseURL(reply.http) != Some(url)
             && !IsDudaMobilePage(reply.error)
             && !(&& ResponseURL(reply.http).Some?
                  && HostOf(ResponseURL(reply.http).value) == HostOf(url)
                  && StatusCode(reply.http) == Some(MethodNotAllowed)))
            ==> s == Finish(Failed(reply.error))
  {
    match reply
    case ListMethodsOk(response, http) =>
      if !ListsWordPressMethods(response) then Finish(Failed(ConvertToNSError(NotWordPressError)))
      else if ResponseURL(http).Some? then Finish(Succeeded(ResponseURL(http).value))
      else Finish(Failed(ConvertToNSError(Invalid)))
    case ListMethodsFailed(error, http) =>
      if ResponseURL(http) != Some(url) then
        if IsDudaMobilePage(error) then Finish(Failed(ConvertToNSError(MobilePluginRedirectedError)))
        else if && ResponseURL(http).Some?
                && HostOf(ResponseURL(http).value) == HostOf(url)
                && StatusCode(http) == Some(MethodNotAllowed)
        then RetryAt(ResponseURL(http).value)
        else Finish(Failed(error))
      else Finish(Failed(error))
  }

  /** The network sends a probe of `from` on to `to`. */
  predicate RetriesAt(net: Network, from: Url, to: Url)
  {
    ProbeStep(from, net.listMethods(from)) == RetryAt(to)
  }

  /** The probe of `url` the trace ends with finishes with this outcome. */
  predicate FinishesWith(net: Network, url: Url, outcome: Outcome)
  {
    ProbeStep(url, net.listMethods(url)) == Finish(outcome)
  }

  /** Each probe in the trace was sent on to the next one. */
  predicate IsRedirectChain(net: Network, trace: seq<Stage>)
    requires OnlyProbes(trace)
  {
    forall i, j {:trigger trace[i], trace[j]} :: 0 <= i < |trace| && 0 <= j < |trace| && j == i + 1 ==> RetriesAt(net, trace[i].url, trace[j].url)
  }

  /**
   * The probe of `url` after `redirectCount` redirects. The trace lists the
   * addresses probed: it starts at `url`, each probe was redirected to the
   * next, and the last one either finished with the outcome or was
   * redirected once the limit had been reached.
   */
  function ValidateXMLRPCURL(net: Network, url: Url, redirectCount: nat): (r: Run)
    ensures redirectCount >= RedirectLimit ==> r == Run(Failed(TooManyRedirectsError), [])
    ensures redirectCount < RedirectLimit ==>
              1 <= |r.trace| <= RedirectLimit - redirectCount && r.trace[0] == ListMethods(url)
    ensures OnlyProbes(r.trace) && IsRedirectChain(net, r.trace)
    ensures r.trace != [] ==>
              var last := r.trace[|r.trace| - 1].url;
              || FinishesWith(net, last, r.outcome)
              || (&& ProbeStep(last, net.listMethods(last)).RetryAt?
                  && redirectCount + |r.trace| == RedirectLimit
                  && r.outcome == Failed(TooManyRedirectsError))
    decreases RedirectLimit - redirectCount
  {
    if redirectCount >= RedirectLimit then Run(Failed(TooManyRedirectsError), [])
    else
      match ProbeStep(url, net.listMethods(url))
      case Finish(outcome) => Run(outcome, [ListMethods(url)])
      case RetryAt(next) =>
        var rest := ValidateXMLRPCURL(net, next, redirectCount + 1);
        Run(rest.outcome, [ListMethods(url)] + rest.trace)
  }

  /**
   * A successful probe names the address of a response that listed
   * `wp.getUsersBlogs`.
   */
  lemma SuccessIsConfirmed(net: Network, url: Url, redirectCount: nat)
    requires ValidateXMLRPCURL(net, url, redirectCount).outcome.Succeeded?
    ensures var r := ValidateXMLRPCURL(net, url, redirectCount);
            var last := r.trace[|r.trace| - 1].url;
            && net.listMethods(last).ListMethodsOk?
            && ListsWordPressMethods(net.listMethods(last).response)
            && ResponseURL(net.listMethods(last).http) == Some(r.outcome.url)
  {
  }

  /**
   * A network that redirects every probe makes exactly as many probes as
   * the limit allows and then reports too many redirects.
   */
  lemma {:induction false} EndlessRedirects(net: Network, url: Url, redirectCount: nat)
    requires redirectCount <= RedirectLimit
    requires forall u :: ProbeStep(u, net.listMethods(u)).RetryAt?
    ensures ValidateXMLRPCURL(net, url, redirectCount).outcome == Failed(TooManyRedirectsError)
    ensures |ValidateXMLRPCURL(net, url, redirectCount).trace| == RedirectLimit - redirectCount
    decreases RedirectLimit - redirectCount
  {
    if redirectCount < RedirectLimit {
      var next := ProbeStep(url, net.listMethods(url)).next;
      EndlessRedirects(net, next, redirectCount + 1);
    }
  }
}
