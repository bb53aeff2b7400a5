/**
 * `WordPressOrgXMLRPCValidatorError` and the `NSError` values that carry it.
 * An `NSError` is kept down to what the validator reads: its domain, its
 * code, the response body it may carry and the Jetpack flag.
 */
module Errors {
  import opened Wrappers

  /** The domain Swift gives the bridged enum, `String(reflecting: WordPressOrgXMLRPCValidatorError.self)`. */
  const ValidatorErrorDomain: string := "WordPressKit.WordPressOrgXMLRPCValidatorError"
  /** `NSURLErrorDomain`, which is also `URLError.errorDomain`. */
  const URLErrorDomain: string := "NSURLErrorDomain"

  const UserCancelledAuthenticationCode: int := -1012
  const CannotFindHostCode: int := -1003
  const NetworkConnectionLostCode: int := -1005
  const HTTPTooManyRedirectsCode: int := -1007

  /**
   * The user info entries the validator reads or writes: the response body
   * the XML-RPC client stores in the error (present only when it decodes as
   * UTF-8) and `UserInfoHasJetpackKey`. Localised message text is not kept.
   */
  datatype UserInfo = UserInfo(responseText: Option<string>, hasJetpack: bool)

  datatype NSError = NSError(domain: string, code: int, userInfo: UserInfo)

  datatype ValidatorError =
    | EmptyURL
    | InvalidURL
    | InvalidScheme
    | NotWordPressError
    | MobilePluginRedirectedError
    | Invalid

  /** The `Int` raw value of each case, in declaration order. */
  function RawValue(e: ValidatorError): int
  {
    match e
    case EmptyURL => 0
    case InvalidURL => 1
    case InvalidScheme => 2
    case NotWordPressError => 3
    case MobilePluginRedirectedError => 4
    case Invalid => 5
  }

  /** `convertToNSError()`: a fresh error in the enum's domain with the case's code. */
  function ConvertToNSError(e: ValidatorError): (r: NSError)
    ensures r.domain == ValidatorErrorDomain && r.code == RawValue(e)
    ensures r.userInfo.responseText.None? && !r.userInfo.hasJetpack
  {
    NSError(ValidatorErrorDomain, RawValue(e), UserInfo(None, false))
  }

  /** The inverse of `ConvertToNSError`: the validator case an error stands for, if any. */
  function ValidatorErrorOf(err: NSError): (r: Option<ValidatorError>)
    ensures r.Some? <==> err.domain == ValidatorErrorDomain && 0 <= err.code <= 5
    ensures r.Some? ==> RawValue(r.value) == err.code
  {
    if err.domain != ValidatorErrorDomain then None
    else if err.code == 0 then Some(EmptyURL)
    else if err.code == 1 then Some(InvalidURL)
    else if err.code == 2 then Some(InvalidScheme)
    else if err.code == 3 then Some(NotWordPressError)
    else if err.code == 4 then Some(MobilePluginRedirectedError)
    else if err.code == 5 then Some(Invalid)
    else None
  }

  /** Converting a case to an error and reading it back gives the case. */
  lemma ConvertToNSErrorRoundTrip(e: ValidatorError)
    ensures ValidatorErrorOf(ConvertToNSError(e)) == Some(e)
  {
  }

  /** Distinct cases give distinct errors. */
  lemma ConvertToNSErrorInjective(e1: ValidatorError, e2: ValidatorError)
    ensures ConvertToNSError(e1) == ConvertToNSError(e2) ==> e1 == e2
  {
    ConvertToNSErrorRoundTrip(e1);
    ConvertToNSErrorRoundTrip(e2);
  }

  /** The error a probe reports once the redirect limit is reached. */
  const TooManyRedirectsError: NSError := NSError(URLErrorDomain, HTTPTooManyRedirectsCode, UserInfo(None, false))

  /** Same domain and code: what the orchestrator's checks look at. */
  predicate SameKind(a: NSError, b: NSError)
  {
    a.domain == b.domain && a.code == b.code
  }

  /**
   * The failures of the first probe that end discovery at once: the user
   * cancelled authentication, the host cannot be found, the connection was
   * lost, or a mobile plugin hijacked the site.
   */
  predicate EndsDiscovery(err: NSError)
  {
    (err.domain == URLErrorDomain
      && (err.code == UserCancelledAuthenticationCode
          || err.code == CannotFindHostCode
          || err.code == NetworkConnectionLostCode))
    || SameKind(err, ConvertToNSError(MobilePluginRedirectedError))
  }
}
