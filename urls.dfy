/**
 * A simplified stand-in for Foundation's `URL`: a URL is represented by its
 * string (Foundation compares two URLs by their strings), `IsURL` plays the
 * part of the failable `URL(string:)`, and scheme, host and last path
 * component are read off the string the way RFC 3986 splits it.
 */
module Urls {
  import opened Wrappers

  type Url = string

  /** Printable ASCII other than space and the characters RFC 3986 never allows unescaped. */
  predicate IsUrlChar(c: char)
  {
    && '!' <= c <= '~'
    && c != '"' && c != '<' && c != '>' && c != '\\' && c != '^' && c != '`'
    && c != '{' && c != '|' && c != '}'
  }

  /** `URL(string: s) != nil`, simplified. */
  predicate IsURL(s: string)
  {
    s != [] && forall i :: 0 <= i < |s| ==> IsUrlChar(s[i])
  }

  lemma ConcatIsURL(a: string, b: string)
    requires IsURL(a) && (b == [] || IsURL(b))
    ensures IsURL(a + b)
  {
    assert forall i :: |a| <= i < |a + b| ==> (a + b)[i] == b[i - |a|];
  }

  /** Position of the first `c` in `s`. */
  function IndexOf(s: string, c: char): (r: Option<nat>)
    ensures r.Some? ==> r.value < |s|
  {
    if s == [] then None
    else if s[0] == c then Some(0)
    else match IndexOf(s[1..], c)
      case None => None
      case Some(k) => Some(k + 1)
  }

  /** `IndexOf` finds the first occurrence, and finds none only when there is none. */
  lemma {:induction false} IndexOfSpec(s: string, c: char)
    ensures var r := IndexOf(s, c);
            && (r.Some? ==> s[r.value] == c && c !in s[..r.value])
            && (r.None? <==> c !in s)
    decreases |s|
  {
    if s != [] && s[0] != c {
      IndexOfSpec(s[1..], c);
      var k := IndexOf(s[1..], c);
      if k.Some? {
        assert s[..k.value + 1] == [s[0]] + s[1..][..k.value];
      }
      assert s == [s[0]] + s[1..];
    }
  }

  predicate IsAsciiLetter(c: char) { 'a' <= c <= 'z' || 'A' <= c <= 'Z' }

  predicate IsSchemeChar(c: char) { IsAsciiLetter(c) || '0' <= c <= '9' || c == '+' || c == '-' || c == '.' }

  predicate AllSchemeChars(s: string)
  {
    s == [] || (IsSchemeChar(s[0]) && AllSchemeChars(s[1..]))
  }

  /** RFC 3986: scheme = ALPHA *( ALPHA / DIGIT / "+" / "-" / "." ). */
  predicate IsSchemeName(n: string)
  {
    n != [] && IsAsciiLetter(n[0]) && AllSchemeChars(n[1..])
  }

  /** `url.scheme`: the text before the first `:` when it is a scheme name. */
  function SchemeOf(s: string): (r: Option<string>)
    ensures r.Some? ==> |r.value| < |s| && IsSchemeName(r.value)
  {
    match IndexOf(s, ':')
    case None => None
    case Some(k) => if IsSchemeName(s[..k]) then Some(s[..k]) else None
  }

  /** A scheme is the text before the first colon. */
  lemma SchemeOfSpec(s: string)
    ensures SchemeOf(s).Some? ==>
              var name := SchemeOf(s).value;
              name == s[..|name|] && s[|name|] == ':' && ':' !in name
    ensures ':' !in s ==> SchemeOf(s).None?
  {
    IndexOfSpec(s, ':');
  }

  /** A string written as `name:` followed by anything has scheme `name`. */
  lemma SchemeOfPrefixed(name: string, rest: string)
    requires IsSchemeName(name) && ':' !in name
    ensures SchemeOf(name + ":" + rest) == Some(name)
  {
    var s := name + ":" + rest;
    assert s[..|name|] == name && s[|name|] == ':';
    IndexOfSpec(s, ':');
    var k := IndexOf(s, ':');
    assert k.Some?;
    assert forall i :: 0 <= i < |name| ==> s[i] == name[i] && name[i] != ':';
    assert forall j :: |name| < j <= |s| ==> s[..j][|name|] == ':';
  }

  /** Everything after `scheme:`, or the whole string when there is no scheme. */
  function AfterScheme(s: string): (r: string)
    ensures |r| <= |s|
  {
    match SchemeOf(s)
    case Some(name) => s[|name| + 1..]
    case None => s
  }

  /** The longest prefix of `s` without any character of `stops`. */
  function UntilAny(s: string, stops: string): (r: string)
    ensures |r| <= |s| && r == s[..|r|]
    ensures forall i :: 0 <= i < |r| ==> r[i] !in stops
    ensures |r| == |s| || s[|r|] in stops
  {
    if s == [] || s[0] in stops then [] else [s[0]] + UntilAny(s[1..], stops)
  }

  /** The suffix of `s` after the last `c` (all of `s` when there is none). */
  function AfterLast(s: string, c: char): (r: string)
    ensures |r| <= |s| && r == s[|s| - |r|..] && c !in r
    ensures |r| < |s| ==> s[|s| - |r| - 1] == c
  {
    if s == [] then []
    else if s[|s| - 1] == c then []
    else AfterLast(s[..|s| - 1], c) + [s[|s| - 1]]
  }

  lemma {:induction false} AfterLastOfSeparated(a: string, c: char, b: string)
    requires c !in b
    ensures AfterLast(a + [c] + b, c) == b
    decreases |b|
  {
    var s := a + [c] + b;
    if b == [] {
      assert s[|s| - 1] == c;
    } else {
      assert s[..|s| - 1] == a + [c] + b[..|b| - 1];
      assert b[|b| - 1] in b;
      AfterLastOfSeparated(a, c, b[..|b| - 1]);
      assert b[..|b| - 1] + [b[|b| - 1]] == b;
    }
  }

  lemma AfterLastAbsent(s: string, c: char)
    requires c !in s
    ensures AfterLast(s, c) == s
  {
    var r := AfterLast(s, c);
    assert forall i :: 0 <= i < |s| ==> s[i] != c;
  }

  function TrimTrailingSlashes(s: string): (r: string)
    ensures |r| <= |s| && r == s[..|r|] && (r == [] || r[|r| - 1] != '/')
  {
    if s != [] && s[|s| - 1] == '/' then TrimTrailingSlashes(s[..|s| - 1]) else s
  }

  /** The path: after the scheme and the `//authority`, before any `?` or `#`. */
  function PathOf(s: string): string
  {
    var rest := UntilAny(AfterScheme(s), "?#");
    if |rest| >= 2 && rest[..2] == "//" then
      match IndexOf(rest[2..], '/')
      case Some(k) => rest[2..][k..]
      case None => []
    else rest
  }

  /** `url.lastPathComponent`: the last segment of the path, trailing slashes ignored. */
  function LastPathComponent(s: string): string
  {
    var path := PathOf(s);
    var stripped := TrimTrailingSlashes(path);
    if stripped == [] then (if path == [] then [] else "/")
    else AfterLast(stripped, '/')
  }

  /** `url.host`: the authority without user information and port. */
  function HostOf(s: string): Option<string>
  {
    var rest := AfterScheme(s);
    if |rest| >= 2 && rest[..2] == "//" then
      var authority := UntilAny(rest[2..], "/?#");
      var host := UntilAny(AfterLast(authority, '@'), ":");
      if host == [] then None else Some(host)
    else None
  }

  lemma UntilQueryOfPlain(s: string)
    requires '?' !in s && '#' !in s
    ensures UntilAny(s, "?#") == s
  {
    var r := UntilAny(s, "?#");
    assert forall i :: 0 <= i < |s| ==> s[i] != '?' && s[i] != '#';
  }

  /** A bare host name (no scheme, no path, no query) is its own last path component. */
  lemma LastPathComponentOfBareName(h: string)
    requires h != [] && ':' !in h && '/' !in h && '?' !in h && '#' !in h
    ensures LastPathComponent(h) == h
  {
    SchemeOfSpec(h);
    assert AfterScheme(h) == h;
    UntilQueryOfPlain(h);
    assert PathOf(h) == h by {
      assert h[0] in h;
      if |h| >= 2 { assert h[..2][0] == h[0]; }
    }
    assert TrimTrailingSlashes(h) == h;
    AfterLastAbsent(h, '/');
  }

  /** A bare host name followed by `/name` has last path component `name`. */
  lemma LastPathComponentOfBareNamePath(h: string, name: string)
    requires h != [] && ':' !in h && '/' !in h && '?' !in h && '#' !in h
    requires name != [] && ':' !in name && '/' !in name && '?' !in name && '#' !in name
    ensures LastPathComponent(h + "/" + name) == name
  {
    var s := h + "/" + name;
    assert ':' !in s && '?' !in s && '#' !in s;
    SchemeOfSpec(s);
    assert AfterScheme(s) == s;
    UntilQueryOfPlain(s);
    assert h[0] in h;
    assert s[..2][0] == h[0] != '/';
    assert PathOf(s) == s;
    assert TrimTrailingSlashes(s) == s;
    AfterLastOfSeparated(h, '/', name);
  }
}
