# WordPress.org XML-RPC endpoint discovery, modelled in Dafny

This project models WordPressKit's `WordPressOrgXMLRPCValidator`. Given the
address of a self-hosted WordPress site as a user typed it, the validator
finds the site's XML-RPC endpoint:

1. It normalises the typed address into two candidates: the typed address
   itself and the same address with `/xmlrpc.php` appended. Surrounding
   whitespace is trimmed, `http://` is added when there is no scheme, and
   only `http`/`https` are accepted.
2. It probes the augmented candidate with `system.listMethods`. A response
   listing `wp.getUsersBlogs` confirms the endpoint. A redirect to the same
   host answered with `405` is probed again, up to 16 probes in all; a
   redirect once the limit is reached ends in too many redirects, without
   another call. A redirect to a DudaMobile page is reported as such.
3. When that probe fails for a reason that does not end discovery, it probes
   the typed address.
4. If that fails too, it fetches the page and scrapes its RSD `<link>`.
   A link containing `?rsd` is probed with every `?rsd` removed from it.
   Any other link is read as an RSD document, whose endpoint is probed.
5. When everything failed, it asks the Jetpack service whether the site runs
   Jetpack, and marks the error when it does.

The network is an oracle value (`Oracle.Network`) that answers every call
the validator makes. A discovery is a `Run`: the outcome, a URL or an error,
together with the trace of calls made, in order. The nested callbacks of the
source become function composition over runs, and the properties are
stated about the outcome and the trace.

Modules:
- `Text`: trimming, substring search and removal, ASCII lower-casing.
- `Urls`: a simplified URL parse (scheme, host, last path component).
- `Errors`: the validator's error enum and its `NSError` form.
- `Normalization`: `urlForXMLRPCFromURLString`.
- `Oracle`: the network, the stages of a trace, runs.
- `Probe`: `validateXMLRPCURL`.
- `RsdLink`: `extractRSDURLFromHTML`.
- `Discovery`: RSD resolution, page scraping, the Jetpack step and
  `guessXMLRPCURLForSite`.

## Model

| member | source | states |
|---|---|---|
| Errors.ConvertToNSError | WordPressKit/WordPressKit/WordPressOrgXMLRPCValidator.swift:12-33 | the error is in the enum's domain, its code is the case's raw value, and it carries no response text and no Jetpack mark |
| Errors.ValidatorErrorOf | WordPressKit/WordPressKit/WordPressOrgXMLRPCValidator.swift:4-10 | an error names a validator case exactly when it is in the enum's domain with a code from 0 to 5, and that case's raw value is the code |
| Errors.ConvertToNSErrorRoundTrip | WordPressKit/WordPressKit/WordPressOrgXMLRPCValidator.swift:4-33 | reading back the converted error gives the original case |
| Errors.ConvertToNSErrorInjective | WordPressKit/WordPressKit/WordPressOrgXMLRPCValidator.swift:4-33 | distinct cases convert to distinct errors |
| Text.TrimSpec | WordPressKit/WordPressKit/WordPressOrgXMLRPCValidator.swift:117-118 | the result is a contiguous slice of the input with only whitespace and newlines before and after it; it is empty exactly when the input is all whitespace and newlines, and otherwise neither starts nor ends with one |
| Text.TrimIdempotent | WordPressKit/WordPressKit/WordPressOrgXMLRPCValidator.swift:117 | trimming a trimmed string changes nothing |
| Text.RemoveAllUnchangedIff | WordPressKit/WordPressKit/WordPressOrgXMLRPCValidator.swift:219-220 | removing every `?rsd` leaves the link unchanged exactly when the link does not contain `?rsd` |
| Text.RemoveAllTrailing | WordPressKit/WordPressKit/WordPressOrgXMLRPCValidator.swift:218-219 | a link that ends in `?rsd`, and has no other `?`, loses exactly that suffix (the case of `RemoveAllAfterPlain` with nothing after it) |
| Text.RemoveAllPlain | WordPressKit/WordPressKit/WordPressOrgXMLRPCValidator.swift:219 | text without the first character of the removed string (`?` for `?rsd`) is left unchanged |
| Text.RemoveAllAfterPlain | WordPressKit/WordPressKit/WordPressOrgXMLRPCValidator.swift:219 | a `?rsd` after text without `?` is dropped and removal carries on in whatever follows it, wherever in the link it sits |
| Text.RemoveAllEveryOccurrence | WordPressKit/WordPressKit/WordPressOrgXMLRPCValidator.swift:219 | every `?rsd` is removed: pieces without `?` joined by `?rsd` become the pieces run together |
| Normalization.UrlForXMLRPC | WordPressKit/WordPressKit/WordPressOrgXMLRPCValidator.swift:114-151 | the empty-URL error exactly for all-whitespace input; the invalid-URL error exactly when the trimmed address does not parse; the invalid-scheme error exactly when it parses with a scheme other than http/https |
| Normalization.UrlForXMLRPCFromURLString | WordPressKit/WordPressKit/WordPressOrgXMLRPCValidator.swift:114-151 | the step-by-step updates of the address and scheme compute the candidate the function defines |
| Normalization.NormalizationOutcomes | WordPressKit/WordPressKit/WordPressOrgXMLRPCValidator.swift:114-151 | normalisation fails only as empty, invalid URL or invalid scheme, and every candidate parses with an http or https scheme |
| Normalization.CandidateOf | WordPressKit/WordPressKit/WordPressOrgXMLRPCValidator.swift:129-150 | a trimmed, parseable address with a web scheme becomes the prefixed address followed by its tail |
| Normalization.CandidatesFailTogether | WordPressKit/WordPressKit/WordPressOrgXMLRPCValidator.swift:66-73 | the augmented and the plain candidate succeed or fail together, with the same error |
| Normalization.AugmentedExtendsPlain | WordPressKit/WordPressKit/WordPressOrgXMLRPCValidator.swift:140-144 | the augmented candidate is the plain one plus `/xmlrpc.php`, unless the last path component is `xmlrpc.php`, when the two are equal |
| Normalization.PlainCandidateIsTypedAddress | WordPressKit/WordPressKit/WordPressOrgXMLRPCValidator.swift:129-134 | the plain candidate is the trimmed address, with `http://` in front exactly when it has no scheme |
| Normalization.PlainCandidateIsStable | WordPressKit/WordPressKit/WordPressOrgXMLRPCValidator.swift:114-151 | normalising the plain candidate again gives it back |
| Normalization.SchemelessInputTrapsAsWritten | WordPressKit/WordPressKit/WordPressOrgXMLRPCValidator.swift:130 | as written, `example.com` traps for both candidates |
| Normalization.AsWrittenAgreesWithScheme | WordPressKit/WordPressKit/WordPressOrgXMLRPCValidator.swift:125-138 | the code as written, step by step (lower-cased scheme, the empty-scheme branch, the web-scheme guard, the `xmlrpc.php` test and append, the final parse guard), traps exactly on parseable addresses without a scheme and otherwise gives what the corrected model gives |
| Normalization.SchemelessPlainCandidate | WordPressKit/WordPressKit/WordPressOrgXMLRPCValidator.swift:131-134 | a parseable address without any `:` only gets `http://` in front |
| Normalization.BareHostCandidates | WordPressKit/WordPressKit/WordPressOrgXMLRPCValidator.swift:130-144 | a bare host name becomes `http://host/xmlrpc.php` and `http://host` |
| Normalization.ExampleComCandidates | WordPressKit/WordPressKit/WordPressOrgXMLRPCValidator.swift:130-144 | `example.com` becomes `http://example.com/xmlrpc.php` and `http://example.com`, and `example.com/xmlrpc.php` is not doubled |
| Normalization.ExplicitXMLRPCNotDoubled | WordPressKit/WordPressKit/WordPressOrgXMLRPCValidator.swift:140 | a bare host (no `:`, `/`, `?` or `#`) followed by `/xmlrpc.php` gets only `http://` in front |
| Normalization.NamedFileAddress | WordPressKit/WordPressKit/WordPressOrgXMLRPCValidator.swift:140 | the last path component of `host/xmlrpc.php` is `xmlrpc.php` |
| Normalization.OtherSchemeRefused | WordPressKit/WordPressKit/WordPressOrgXMLRPCValidator.swift:136-138 | any scheme that is not http or https, in any case, is refused as an invalid scheme |
| Normalization.FtpRefused | WordPressKit/WordPressKit/WordPressOrgXMLRPCValidator.swift:136-138 | `ftp://example.com` is refused as an invalid scheme |
| Probe.ProbeStep | WordPressKit/WordPressKit/WordPressOrgXMLRPCValidator.swift:165-197 | success exactly when the reply lists `wp.getUsersBlogs` and names the response URL; a retry exactly on a redirect to the same host answered with 405 that is not a DudaMobile page; a reply without the method is not-WordPress; a listing reply without a response URL is invalid; a redirected failure carrying a DudaMobile page is mobile-plugin; any other failure that is not retried, redirected or not, passes the call's error on |
| Probe.ValidateXMLRPCURL | WordPressKit/WordPressKit/WordPressOrgXMLRPCValidator.swift:153-198 | at the limit: too many redirects and no call; otherwise at most as many probes as redirects are left, starting at the address and following a redirect chain, with the last probe deciding the outcome or being redirected once the limit is reached |
| Probe.SuccessIsConfirmed | WordPressKit/WordPressKit/WordPressOrgXMLRPCValidator.swift:166-171 | a successful probe names the URL of a response that listed `wp.getUsersBlogs` |
| Probe.EndlessRedirects | WordPressKit/WordPressKit/WordPressOrgXMLRPCValidator.swift:157-163 | a network that redirects every probe gets exactly as many probes as the limit allows, then too many redirects |
| RsdLink.SkipSpacesSpec | WordPressKit/WordPressKit/WordPressOrgXMLRPCValidator.swift:238 | `\s+` consumes exactly the maximal run of regex whitespace |
| RsdLink.MatchAtSpec | WordPressKit/WordPressKit/WordPressOrgXMLRPCValidator.swift:238 | the address a tag captures starts after the tag's opening and holds no quote, as `([^"]*)` demands |
| RsdLink.ExtractRSDURLFromHTML | WordPressKit/WordPressKit/WordPressOrgXMLRPCValidator.swift:237-256 | a link is found exactly when the pattern matches somewhere, and then it is the href captured by the leftmost match |
| RsdLink.ExtractWrittenLink | WordPressKit/WordPressKit/WordPressOrgXMLRPCValidator.swift:238-255 | a page holding the RSD tag WordPress writes, with no match of the pattern starting earlier (any other markup is allowed before it), yields the tag's href |
| RsdLink.ExtractWrittenLinkAfterText | WordPressKit/WordPressKit/WordPressOrgXMLRPCValidator.swift:238-255 | the same when the text before the tag holds no `<` at all |
| RsdLink.NoBracketNoLink | WordPressKit/WordPressKit/WordPressOrgXMLRPCValidator.swift:244-249 | a page without `<` yields no link |
| Discovery.ConfirmedMeansListed | WordPressKit/WordPressKit/WordPressOrgXMLRPCValidator.swift:165-171 | a confirmed run's last probe got a reply listing `wp.getUsersBlogs` from the reported URL |
| Discovery.RSDEndpoint | WordPressKit/WordPressKit/WordPressOrgXMLRPCValidator.swift:272-277 | an endpoint exists exactly when the body decodes, the RSD parser names an address, and that address parses |
| Discovery.GuessXMLRPCURLFromRSD | WordPressKit/WordPressKit/WordPressOrgXMLRPCValidator.swift:258-286 | no call, and invalid, exactly for an unparseable address; otherwise the document is fetched first; a run that stops after the fetch fails, with the fetch's error or invalid; a longer run probes the endpoint the document names, along a redirect chain, and reports that probe's outcome; success is confirmed; the Jetpack service is never asked (the three `RSD…` lemmas below fix each case's outcome) |
| Discovery.GuessXMLRPCURLFromHTMLURL | WordPressKit/WordPressKit/WordPressOrgXMLRPCValidator.swift:200-235 | the page is fetched first; a run that stops after the fetch fails, with the fetch's error or invalid; a probe right after the fetch means the link contains `?rsd` and the probed address is the link with every `?rsd` removed, and a failure is then invalid; any other continuation means the link has no `?rsd` and is the RSD step's run on the link; success is confirmed; the Jetpack service is never asked (the four page lemmas below fix each case's outcome) |
| Discovery.RSDFetchFailurePassedOn | WordPressKit/WordPressKit/WordPressOrgXMLRPCValidator.swift:267-271 | a failed fetch of the RSD document is reported unchanged after that one call |
| Discovery.RSDWithoutEndpointInvalid | WordPressKit/WordPressKit/WordPressOrgXMLRPCValidator.swift:272-280 | a fetched document without a usable endpoint is invalid after the fetch alone |
| Discovery.RSDEndpointProbed | WordPressKit/WordPressKit/WordPressOrgXMLRPCValidator.swift:272-283 | the endpoint a document names is probed right after the fetch, and the probe's outcome is reported unchanged |
| Discovery.PageFetchFailurePassedOn | WordPressKit/WordPressKit/WordPressOrgXMLRPCValidator.swift:205-209 | a failed page fetch is reported unchanged after that one call |
| Discovery.PageWithoutLinkInvalid | WordPressKit/WordPressKit/WordPressOrgXMLRPCValidator.swift:210-216 | a fetched page without an RSD link is invalid after the fetch alone |
| Discovery.StrippedLinkProbed | WordPressKit/WordPressKit/WordPressOrgXMLRPCValidator.swift:218-228 | a link that changes when every `?rsd` is removed is probed in that form right after the fetch, success passed on and any failure invalid; a stripped link that does not parse is invalid without a probe |
| Discovery.UnchangedLinkReadAsRSD | WordPressKit/WordPressKit/WordPressOrgXMLRPCValidator.swift:229-232 | a link with no `?rsd` is handed to the RSD step right after the fetch, which decides the outcome |
| Discovery.PageLinkLeadsToProbe | WordPressKit/WordPressKit/WordPressOrgXMLRPCValidator.swift:218-228 | a page carrying WordPress's RSD tag for `endpoint?rsd`, where `endpoint` parses and contains no `?` and no earlier match of the pattern comes before the tag, leads to a probe of `endpoint` right after the page fetch, whose success is passed on and whose failure is invalid |
| Discovery.MidLinkQueryStripped | WordPressKit/WordPressKit/WordPressOrgXMLRPCValidator.swift:219 | `x.com/xmlrpc.php?rsd&a=b` becomes `x.com/xmlrpc.php&a=b` |
| Discovery.WithJetpackFlag | WordPressKit/WordPressKit/WordPressOrgXMLRPCValidator.swift:94-99 | the marked error keeps its domain, code and response text and carries the Jetpack mark |
| Discovery.EnrichWithJetpack | WordPressKit/WordPressKit/WordPressOrgXMLRPCValidator.swift:91-108 | the error keeps its domain, code and response text; it is marked exactly when it was already marked or the service exists and answers yes; the only call is the check about the typed address, made exactly when the service exists |
| Discovery.AfterPage | WordPressKit/WordPressKit/WordPressOrgXMLRPCValidator.swift:89-108 | succeeds exactly when the page step did, and then is that step; a failed page step is followed by the Jetpack step on its error; the Jetpack check, if made, is last |
| Discovery.FromTypedAddress | WordPressKit/WordPressKit/WordPressOrgXMLRPCValidator.swift:86-110 | starts with a probe of the typed address; when that probe succeeds, it is the whole run (line 86 hands `success` on); success is confirmed; the Jetpack check, if made, is last, about the typed address, and in a failed run |
| Discovery.Discover | WordPressKit/WordPressKit/WordPressOrgXMLRPCValidator.swift:75-111 | starts with a probe of the augmented address; success is confirmed; the Jetpack check, if made, is last, about the typed address, and in a failed run |
| Discovery.GuessXMLRPCURLForSite | WordPressKit/WordPressKit/WordPressOrgXMLRPCValidator.swift:60-112 | a refused address fails with the normalisation error and makes no call; otherwise discovery runs from the two candidates |
| Discovery.EarlyExit | WordPressKit/WordPressKit/WordPressOrgXMLRPCValidator.swift:66-73 | no call is made exactly when the typed address is refused, and then the error is empty, invalid URL or invalid scheme |
| Discovery.SiteOutcomes | WordPressKit/WordPressKit/WordPressOrgXMLRPCValidator.swift:60-112 | a success is confirmed by its last probe and never asked the Jetpack service; a Jetpack check is the last call of a failed run, about the typed address |
| Discovery.FirstProbeDecides | WordPressKit/WordPressKit/WordPressOrgXMLRPCValidator.swift:75-86 | discovery is the first probe's run exactly when that probe succeeds or fails with an error that ends discovery (`Errors.EndsDiscovery`, lines 77-80: cancelled authentication, host not found, connection lost, or the mobile-plugin error); otherwise the first probe's calls are followed by the typed-address run, which decides the outcome |
| Discovery.PageAfterTypedAddress | WordPressKit/WordPressKit/WordPressOrgXMLRPCValidator.swift:86-89 | when the typed address fails, the page is fetched right after its probes, and discovery succeeds exactly when the page step does |
| Discovery.TypedAddressFallsThrough | WordPressKit/WordPressKit/WordPressOrgXMLRPCValidator.swift:86-109 | when the typed address fails, its probes are followed by the page step and the Jetpack step, which decide the outcome; the typed address's error is dropped |
| Discovery.FallThroughReportsPageError | WordPressKit/WordPressKit/WordPressOrgXMLRPCValidator.swift:75-109 | when both probes fail without ending discovery and the page step fails, discovery reports the page step's error as the Jetpack step leaves it |
| Discovery.ProbeOnlyFailureEndsDiscovery | WordPressKit/WordPressKit/WordPressOrgXMLRPCValidator.swift:75-83 | a failure reported with only probes made carries an error that ends discovery |
| Discovery.ImmediateSuccess | WordPressKit/WordPressKit/WordPressOrgXMLRPCValidator.swift:75 | when the augmented address answers at once with `wp.getUsersBlogs`, discovery succeeds with the response URL after one call |

## Left out

- URL parsing: Foundation's `URL(string:)` is reduced to a check on allowed characters, with a simplified reading of scheme, host and last path component.
- Text decoding: `String(data:encoding:)` on a body is a value of `Option<string>` supplied by the network.
- Pattern matching: the case-insensitive match lowers ASCII letters only; Unicode case folding is not modelled.
- Pattern matching: the search range counts characters where the regex counts UTF-16 units; the model searches the whole string.
- The RSD parser (`WordPressRSDParser`) is not part of this model; it is an oracle function from text to an optional endpoint.
- The XML-RPC client (`WordPressOrgXMLRPCApi`) and `URLSession` are replaced by the oracle. Each call's reply depends only on its address, so a network whose answers change over time is not modelled.
- The callbacks, their threads and their ordering are replaced by sequential composition of runs.
- Logging (`DDLog*`) is left out, and so are the localised messages placed in the user info of converted errors.
- The Jetpack step: creating `JetpackServiceRemote` is a boolean of the network, and the check's reply is an oracle value.
- Errors.ConvertToNSError: the `NSLocalizedDescriptionKey` message is not kept; an error's user info holds only the response text and the Jetpack mark.

## Findings

| source | as written | input that shows it | evidently intended | confidence | as-written member | corrected member |
|---|---|---|---|---|---|---|
| WordPressKit/WordPressKit/WordPressOrgXMLRPCValidator.swift:130 | `baseURL.scheme!` is force-unwrapped, but `URL(string:)` accepts a scheme-less address and gives it no scheme | the typed site `example.com` | a missing scheme is treated as empty, so `http://` is put in front, as lines 131-134 do | not executed | Normalization.SchemelessInputTrapsAsWritten | Normalization.ExampleComCandidates |
