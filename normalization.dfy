/**
 * `urlForXMLRPCFromURLString`: from a typed site address to a candidate
 * XML-RPC endpoint, with or without `/xmlrpc.php` appended.
 */
module Normalization {
  import opened Wrappers
  import opened Text
  import opened Urls
  import opened Errors

  const XMLRPCFile: string := "xmlrpc.php"
  const XMLRPCSuffix: string := "/xmlrpc.php"

  /** A typed site address used in the examples below. */
  const ExampleCom: string := "example.com"

  /** A scheme the validator refuses. */
  const FtpScheme: string := "ftp"

  predicate IsWebScheme(scheme: string)
  {
    scheme == "http" || scheme == "https"
  }

  /** The scheme the validator goes on with: the typed one lower-cased, or `http` when none was typed. */
  function EffectiveScheme(trimmed: string): string
  {
    match SchemeOf(trimmed)
    case Some(name) => Lower(name)
    case None => "http"
  }

  /** The address with `http://` in front when it names no scheme. */
  function WithSchemePrefix(trimmed: string): string
  {
    if SchemeOf(trimmed).None? then "http://" + trimmed else trimmed
  }

  /** What is appended: `/xmlrpc.php` when asked for and the typed path does not already end in it. */
  function Appended(trimmed: string, addXMLRPC: bool): (tail: string)
    ensures tail == [] || tail == XMLRPCSuffix
  {
    if addXMLRPC && LastPathComponent(trimmed) != XMLRPCFile then XMLRPCSuffix else []
  }

  /**
   * The candidate URL for a typed address, or the error the source throws.
   * A missing scheme is taken to mean `http` (see `UrlForXMLRPCAsWritten`
   * for what the source does there).
   */
  function UrlForXMLRPC(urlString: string, addXMLRPC: bool): (r: Result<Url, NSError>)
    ensures (forall i :: 0 <= i < |urlString| ==> IsWhitespaceOrNewline(urlString[i]))
            <==> r == Failure(ConvertToNSError(EmptyURL))
    ensures r == Failure(ConvertToNSError(InvalidURL)) <==> Trim(urlString) != [] && !IsURL(Trim(urlString))
    ensures r == Failure(ConvertToNSError(InvalidScheme))
            <==> IsURL(Trim(urlString)) && !IsWebScheme(EffectiveScheme(Trim(urlString)))
  {
    TrimBlank(urlString);
    var trimmed := Trim(urlString);
    if trimmed == [] then Failure(ConvertToNSError(EmptyURL))
    else if !IsURL(trimmed) then Failure(ConvertToNSError(InvalidURL))
    else if !IsWebScheme(EffectiveScheme(trimmed)) then Failure(ConvertToNSError(InvalidScheme))
    else
      var candidate := WithSchemePrefix(trimmed) + Appended(trimmed, addXMLRPC);
      if IsURL(candidate) then Success(candidate) else Failure(ConvertToNSError(Invalid))
  }

  /** A parseable address has no surrounding whitespace, so trimming leaves it alone. */
  lemma URLIsTrimmed(s: string)
    requires IsURL(s)
    ensures Trim(s) == s
  {
    assert IsUrlChar(s[0]) && IsUrlChar(s[|s| - 1]);
    TrimOfTrimmed(s);
  }

  /** Prefixing `http://` keeps an address parseable and gives it scheme `http`. */
  lemma PrefixedIsURL(trimmed: string, tail: string)
    requires IsURL(trimmed) && SchemeOf(trimmed).None?
    requires tail == [] || tail == XMLRPCSuffix
    ensures IsURL("http://" + trimmed + tail)
    ensures SchemeOf("http://" + trimmed + tail) == Some("http")
  {
    assert IsURL("http://");
    if tail != [] { assert IsURL(XMLRPCSuffix); }
    ConcatIsURL("http://", trimmed);
    ConcatIsURL("http://" + trimmed, tail);
    assert "http://" + trimmed + tail == "http" + ":" + ("//" + trimmed + tail);
    SchemeOfPrefixed("http", "//" + trimmed + tail);
  }

  /** Appending `/xmlrpc.php` keeps an address parseable and keeps its scheme. */
  lemma AppendedIsURL(trimmed: string, tail: string)
    requires IsURL(trimmed) && SchemeOf(trimmed).Some?
    requires tail == [] || tail == XMLRPCSuffix
    ensures IsURL(trimmed + tail)
    ensures SchemeOf(trimmed + tail) == SchemeOf(trimmed)
  {
    if tail != [] { assert IsURL(XMLRPCSuffix); }
    ConcatIsURL(trimmed, tail);
    SchemeOfSpec(trimmed);
    var name := SchemeOf(trimmed).value;
    assert trimmed == name + ":" + trimmed[|name| + 1..];
    assert trimmed + tail == name + ":" + (trimmed[|name| + 1..] + tail);
    SchemeOfPrefixed(name, trimmed[|name| + 1..] + tail);
  }

  /** The candidate built from a parseable address with a web scheme parses and has a web scheme. */
  lemma CandidateIsURL(trimmed: string, tail: string)
    requires IsURL(trimmed) && IsWebScheme(EffectiveScheme(trimmed))
    requires tail == [] || tail == XMLRPCSuffix
    ensures IsURL(WithSchemePrefix(trimmed) + tail)
    ensures SchemeOf(WithSchemePrefix(trimmed) + tail).Some?
    ensures IsWebScheme(Lower(SchemeOf(WithSchemePrefix(trimmed) + tail).value))
  {
    if SchemeOf(trimmed).None? {
      PrefixedIsURL(trimmed, tail);
      assert WithSchemePrefix(trimmed) + tail == "http://" + trimmed + tail;
      assert Lower("http") == "http";
    } else {
      AppendedIsURL(trimmed, tail);
    }
  }

  /**
   * The source, step by step: `resultURLString` and `scheme` are updated in
   * the order the source updates them. Where the source force-unwraps
   * `baseURL.scheme`, this method reads a missing scheme as the empty one,
   * so the empty-scheme branch adds `http://`; `UrlForXMLRPCAsWritten` is
   * the reading that traps there, and `AsWrittenAgreesWithScheme` shows the
   * two agree wherever that reading does not trap.
   */
  method UrlForXMLRPCFromURLString(urlString: string, addXMLRPC: bool) returns (r: Result<Url, NSError>)
    ensures r == UrlForXMLRPC(urlString, addXMLRPC)
  {
    var resultURLString := Trim(urlString);
    if resultURLString == [] {
      return Failure(ConvertToNSError(EmptyURL));
    }
    if !IsURL(resultURLString) {
      return Failure(ConvertToNSError(InvalidURL));
    }
    var baseURL := resultURLString;
    // The source force-unwraps the scheme here; a missing one is read as
    // the empty scheme its next line handles.
    var scheme := if SchemeOf(baseURL).Some? then Lower(SchemeOf(baseURL).value) else "";
    PresentSchemeNotEmpty(baseURL);
    if scheme == [] {
      resultURLString := "http://" + resultURLString;
      scheme := "http";
    }
    assert scheme == EffectiveScheme(baseURL) && resultURLString == WithSchemePrefix(baseURL);
    if !(scheme == "http" || scheme == "https") {
      return Failure(ConvertToNSError(InvalidScheme));
    }
    if LastPathComponent(baseURL) != XMLRPCFile && addXMLRPC {
      resultURLString := resultURLString + XMLRPCSuffix;
    }
    assert resultURLString == WithSchemePrefix(baseURL) + Appended(baseURL, addXMLRPC);
    if !IsURL(resultURLString) {
      return Failure(ConvertToNSError(Invalid));
    }
    return Success(resultURLString);
  }

  /** A scheme that is present is never empty once lower-cased. */
  lemma PresentSchemeNotEmpty(s: string)
    ensures SchemeOf(s).Some? ==> Lower(SchemeOf(s).value) != [] && EffectiveScheme(s) == Lower(SchemeOf(s).value)
    ensures SchemeOf(s).None? ==> EffectiveScheme(s) == "http" && WithSchemePrefix(s) == "http://" + s
    ensures SchemeOf(s).Some? ==> WithSchemePrefix(s) == s
  {
  }

  /**
   * Normalisation never ends in the catch-all `invalid`: only empty,
   * malformed and bad-scheme input fail, and a candidate always parses and
   * has a web scheme.
   */
  lemma NormalizationOutcomes(urlString: string, addXMLRPC: bool)
    ensures var r := UrlForXMLRPC(urlString, addXMLRPC);
            && (r.Failure? ==> r.error in {ConvertToNSError(EmptyURL), ConvertToNSError(InvalidURL), ConvertToNSError(InvalidScheme)})
            && (r.Success? ==> IsURL(r.value) && SchemeOf(r.value).Some? && IsWebScheme(Lower(SchemeOf(r.value).value)))
  {
    var trimmed := Trim(urlString);
    if trimmed != [] && IsURL(trimmed) && IsWebScheme(EffectiveScheme(trimmed)) {
      CandidateIsURL(trimmed, Appended(trimmed, addXMLRPC));
    }
  }

  /** When the trimmed address parses and has a web scheme, the candidate is the prefixed address and its tail. */
  lemma CandidateOf(urlString: string, addXMLRPC: bool)
    requires Trim(urlString) != [] && IsURL(Trim(urlString)) && IsWebScheme(EffectiveScheme(Trim(urlString)))
    ensures UrlForXMLRPC(urlString, addXMLRPC)
            == Success(WithSchemePrefix(Trim(urlString)) + Appended(Trim(urlString), addXMLRPC))
  {
    CandidateIsURL(Trim(urlString), Appended(Trim(urlString), addXMLRPC));
  }

  /** Both candidates fail or succeed together, and with the same error. */
  lemma CandidatesFailTogether(urlString: string)
    ensures UrlForXMLRPC(urlString, true).Success? == UrlForXMLRPC(urlString, false).Success?
    ensures UrlForXMLRPC(urlString, true).Failure?
            ==> UrlForXMLRPC(urlString, true).error == UrlForXMLRPC(urlString, false).error
  {
    var trimmed := Trim(urlString);
    if trimmed != [] && IsURL(trimmed) && IsWebScheme(EffectiveScheme(trimmed)) {
      CandidateOf(urlString, true);
      CandidateOf(urlString, false);
    }
  }

  /**
   * The augmented candidate is the plain one with `/xmlrpc.php` appended,
   * unless the typed path already ends in `xmlrpc.php`: the suffix is never
   * doubled.
   */
  lemma AugmentedExtendsPlain(urlString: string)
    requires UrlForXMLRPC(urlString, false).Success?
    ensures UrlForXMLRPC(urlString, true).Success?
    ensures LastPathComponent(Trim(urlString)) != XMLRPCFile
            ==> UrlForXMLRPC(urlString, true).value == UrlForXMLRPC(urlString, false).value + XMLRPCSuffix
    ensures LastPathComponent(Trim(urlString)) == XMLRPCFile
            ==> UrlForXMLRPC(urlString, true).value == UrlForXMLRPC(urlString, false).value
  {
    var trimmed := Trim(urlString);
    assert trimmed != [] && IsURL(trimmed) && IsWebScheme(EffectiveScheme(trimmed));
    CandidateOf(urlString, true);
    CandidateOf(urlString, false);
    assert WithSchemePrefix(trimmed) + [] == WithSchemePrefix(trimmed);
  }

  /** The plain candidate is the trimmed address, with `http://` in front exactly when it had no scheme. */
  lemma PlainCandidateIsTypedAddress(urlString: string)
    requires UrlForXMLRPC(urlString, false).Success?
    ensures var url := UrlForXMLRPC(urlString, false).value;
            && (SchemeOf(Trim(urlString)).Some? ==> url == Trim(urlString))
            && (SchemeOf(Trim(urlString)).None? ==> url == "http://" + Trim(urlString))
  {
    var trimmed := Trim(urlString);
    assert trimmed != [] && IsURL(trimmed) && IsWebScheme(EffectiveScheme(trimmed));
    CandidateOf(urlString, false);
    assert WithSchemePrefix(trimmed) + [] == WithSchemePrefix(trimmed);
  }

  /** Normalising an already normalised plain candidate gives it back. */
  lemma PlainCandidateIsStable(urlString: string)
    requires UrlForXMLRPC(urlString, false).Success?
    ensures UrlForXMLRPC(UrlForXMLRPC(urlString, false).value, false) == UrlForXMLRPC(urlString, false)
  {
    var trimmed := Trim(urlString);
    assert trimmed != [] && IsURL(trimmed) && IsWebScheme(EffectiveScheme(trimmed));
    CandidateOf(urlString, false);
    var url := WithSchemePrefix(trimmed) + [];
    CandidateIsURL(trimmed, []);
    URLIsTrimmed(url);
    assert SchemeOf(url).Some?;
    assert EffectiveScheme(url) == Lower(SchemeOf(url).value);
    CandidateOf(url, false);
    assert WithSchemePrefix(url) == url;
    assert url + [] == url;
  }

  /** How a call ends: with a value, or by stopping the program. */
  datatype Completion<T> = Returned(result: T) | Trapped

  /**
   * What the source does where it force-unwraps `baseURL.scheme`: an
   * address that parses without a scheme stops the program instead of
   * getting `http://` in front.
   */
  function UrlForXMLRPCAsWritten(urlString: string, addXMLRPC: bool): Completion<Result<Url, NSError>>
  {
    var trimmed := Trim(urlString);
    if trimmed == [] then Returned(Failure(ConvertToNSError(EmptyURL)))
    else if !IsURL(trimmed) then Returned(Failure(ConvertToNSError(InvalidURL)))
    else if SchemeOf(trimmed).None? then Trapped
    else
      var lowered := Lower(SchemeOf(trimmed).value);
      // The branch for an empty scheme, which a present scheme never takes.
      var (resultURLString, scheme) := if lowered == [] then ("http://" + trimmed, "http") else (trimmed, lowered);
      if !(scheme == "http" || scheme == "https") then Returned(Failure(ConvertToNSError(InvalidScheme)))
      else
        var withFile :=
          if LastPathComponent(trimmed) != XMLRPCFile && addXMLRPC then resultURLString + XMLRPCSuffix
          else resultURLString;
        if IsURL(withFile) then Returned(Success(withFile)) else Returned(Failure(ConvertToNSError(Invalid)))
  }

  /** As written, the source traps on a typed address without a scheme, such as `example.com`. */
  lemma SchemelessInputTrapsAsWritten()
    ensures UrlForXMLRPCAsWritten(ExampleCom, true) == Trapped
    ensures UrlForXMLRPCAsWritten(ExampleCom, false) == Trapped
  {
    assert IsURL(ExampleCom) && ':' !in ExampleCom;
    URLIsTrimmed(ExampleCom);
    SchemeOfSpec(ExampleCom);
  }

  /**
   * Where the source has a scheme, it agrees with the model; where it has
   * none, the model does what the empty-scheme branch intends and the
   * source would trap.
   */
  lemma {:induction false} AsWrittenAgreesWithScheme(urlString: string, addXMLRPC: bool)
    ensures UrlForXMLRPCAsWritten(urlString, addXMLRPC).Returned?
            ==> UrlForXMLRPCAsWritten(urlString, addXMLRPC).result == UrlForXMLRPC(urlString, addXMLRPC)
    ensures UrlForXMLRPCAsWritten(urlString, addXMLRPC).Trapped?
            <==> IsURL(Trim(urlString)) && SchemeOf(Trim(urlString)).None?
  {
    var trimmed := Trim(urlString);
    if trimmed != [] && IsURL(trimmed) && SchemeOf(trimmed).Some? {
      assert |Lower(SchemeOf(trimmed).value)| > 0;
      assert WithSchemePrefix(trimmed) == trimmed;
      assert trimmed + [] == trimmed;
    }
  }

  /** A parseable address without a scheme gets `http://` in front and nothing else. */
  lemma SchemelessPlainCandidate(s: string)
    requires IsURL(s) && ':' !in s
    ensures UrlForXMLRPC(s, false) == Success("http://" + s)
  {
    URLIsTrimmed(s);
    SchemeOfSpec(s);
    assert EffectiveScheme(s) == "http";
    CandidateOf(s, false);
    assert "http://" + s + [] == "http://" + s;
  }

  /**
   * A bare host name typed without a scheme becomes `http://<name>/xmlrpc.php`
   * and `http://<name>`.
   */
  lemma BareHostCandidates(name: string)
    requires IsURL(name) && ':' !in name && '/' !in name && '?' !in name && '#' !in name
    requires name != XMLRPCFile
    ensures UrlForXMLRPC(name, true) == Success("http://" + name + XMLRPCSuffix)
    ensures UrlForXMLRPC(name, false) == Success("http://" + name)
  {
    SchemelessPlainCandidate(name);
    URLIsTrimmed(name);
    LastPathComponentOfBareName(name);
    AugmentedExtendsPlain(name);
  }

  /**
   * The typed address `example.com` gives `http://example.com/xmlrpc.php`
   * and `http://example.com`; `example.com/xmlrpc.php` gives
   * `http://example.com/xmlrpc.php`.
   */
  lemma ExampleComCandidates()
    ensures UrlForXMLRPC(ExampleCom, true) == Success("http://" + ExampleCom + XMLRPCSuffix)
    ensures UrlForXMLRPC(ExampleCom, false) == Success("http://" + ExampleCom)
    ensures UrlForXMLRPC(ExampleCom + XMLRPCSuffix, true) == Success("http://" + ExampleCom + XMLRPCSuffix)
  {
    assert ':' !in ExampleCom && '/' !in ExampleCom && '?' !in ExampleCom && '#' !in ExampleCom;
    BareHostCandidates(ExampleCom);
    ExplicitXMLRPCNotDoubled(ExampleCom);
  }

  /** A bare host name followed by `/xmlrpc.php` already names the file: nothing more is appended. */
  lemma ExplicitXMLRPCNotDoubled(name: string)
    requires IsURL(name) && ':' !in name && '/' !in name && '?' !in name && '#' !in name
    ensures UrlForXMLRPC(name + XMLRPCSuffix, true) == Success("http://" + name + XMLRPCSuffix)
  {
    var s := name + XMLRPCSuffix;
    NamedFileAddress(name);
    SchemelessPlainCandidate(s);
    AugmentedExtendsPlain(s);
    assert "http://" + s == "http://" + name + XMLRPCSuffix;
  }

  lemma NamedFileAddress(name: string)
    requires IsURL(name) && ':' !in name && '/' !in name && '?' !in name && '#' !in name
    ensures IsURL(name + XMLRPCSuffix) && ':' !in name + XMLRPCSuffix
    ensures LastPathComponent(Trim(name + XMLRPCSuffix)) == XMLRPCFile
  {
    var s := name + XMLRPCSuffix;
    assert s == name + "/" + XMLRPCFile;
    assert IsURL(XMLRPCSuffix);
    ConcatIsURL(name, XMLRPCSuffix);
    LastPathComponentOfBareNamePath(name, XMLRPCFile);
    URLIsTrimmed(s);
  }

  /** A typed address whose scheme is neither `http` nor `https`, in any case, is refused for its scheme. */
  lemma OtherSchemeRefused(name: string, rest: string, addXMLRPC: bool)
    requires IsSchemeName(name) && ':' !in name && IsURL(name + ":" + rest)
    requires !IsWebScheme(Lower(name))
    ensures UrlForXMLRPC(name + ":" + rest, addXMLRPC) == Failure(ConvertToNSError(InvalidScheme))
  {
    var s := name + ":" + rest;
    URLIsTrimmed(s);
    SchemeOfPrefixed(name, rest);
    assert EffectiveScheme(s) == Lower(name);
  }

  /** `ftp://example.com` is refused for its scheme. */
  lemma FtpRefused()
    ensures UrlForXMLRPC(FtpScheme + "://" + ExampleCom, true) == Failure(ConvertToNSError(InvalidScheme))
  {
    assert IsSchemeName(FtpScheme) && ':' !in FtpScheme && Lower(FtpScheme) == FtpScheme;
    assert FtpScheme + "://" + ExampleCom == FtpScheme + ":" + ("//" + ExampleCom);
    assert IsURL(FtpScheme + ":" + ("//" + ExampleCom));
    OtherSchemeRefused(FtpScheme, "//" + ExampleCom, true);
  }
}
