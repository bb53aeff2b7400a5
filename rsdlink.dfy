// `extractRSDURLFromHTML`: the first match of
//
//   <link\s+rel="EditURI"\s+type="application/rsd\+xml"\s+title="RSD"\s+href="([^"]*)"[^/]*/>
//
// matched without regard to case, and its captured address. Every part of
// the pattern matches in exactly one way (`\s+` is followed by a letter,
// `[^"]*` by a quote, `[^/]*` by a slash), so the matcher below follows it
// left to right without backtracking.
module RsdLink {
  import opened Wrappers
  import opened Text

  /** ICU's `\s`: tab, line feed, form feed, carriage return and category Z. */
  predicate IsRegexSpace(c: char)
  {
    c == '\t' || c == '\n' || c == '\U{C}' || c == '\r' || IsUnicodeSeparator(c)
  }

  /**
   * The literal parts of the pattern, lower-cased: the pattern is matched
   * without case, so each is compared with the page lower-cased.
   */
  const LinkOpen: string := "<link"
  const RelEditURI: string := "rel=\"edituri\""
  const TypeRSD: string := "type=\"application/rsd+xml\""
  const TitleRSD: string := "title=\"rsd\""
  const HrefOpen: string := "href=\""

  /** `s` has the lower-case text `lit` at `i`, comparing letters without case. */
  predicate LiteralAt(s: string, i: nat, lit: string)
  {
    i + |lit| <= |s| && Lower(s[i..i + |lit|]) == lit
  }

  /** The end of the run of `\s` characters that starts at `i`. */
  function SkipSpaces(s: string, i: nat): (j: nat)
    requires i <= |s|
    ensures i <= j <= |s|
    decreases |s| - i
  {
    if i < |s| && IsRegexSpace(s[i]) then SkipSpaces(s, i + 1) else i
  }

  /** `SkipSpaces` stops at the first character that is not `\s`. */
  lemma {:induction false} SkipSpacesSpec(s: string, i: nat)
    requires i <= |s|
    ensures forall k :: i <= k < SkipSpaces(s, i) ==> IsRegexSpace(s[k])
    ensures SkipSpaces(s, i) == |s| || !IsRegexSpace(s[SkipSpaces(s, i)])
    decreases |s| - i
  {
    if i < |s| && IsRegexSpace(s[i]) {
      SkipSpacesSpec(s, i + 1);
    }
  }

  /** The first `c` at or after `i`. */
  function FindFrom(s: string, i: nat, c: char): (r: Option<nat>)
    requires i <= |s|
    ensures r.Some? ==> i <= r.value < |s| && s[r.value] == c
    ensures r.Some? ==> forall k :: i <= k < r.value ==> s[k] != c
    ensures r.None? ==> forall k :: i <= k < |s| ==> s[k] != c
    decreases |s| - i
  {
    if i == |s| then None
    else if s[i] == c then Some(i)
    else FindFrom(s, i + 1, c)
  }

  /** Past `lit` at `i`, if it is there. */
  function AfterLiteral(s: string, i: nat, lit: string): (r: Option<nat>)
    requires i <= |s|
    ensures r.Some? <==> LiteralAt(s, i, lit)
    ensures r.Some? ==> r.value == i + |lit| <= |s|
  {
    if LiteralAt(s, i, lit) then Some(i + |lit|) else None
  }

  /** Past `\s+` at `i`, if there is at least one `\s` character. */
  function AfterSpaces(s: string, i: nat): (r: Option<nat>)
    requires i <= |s|
    ensures r.Some? ==> i < r.value <= |s|
  {
    var j := SkipSpaces(s, i);
    if j > i then Some(j) else None
  }

  /** Where the address starts, when the tag up to `href="` matches at `i`. */
  function MatchHead(s: string, i: nat): (r: Option<nat>)
    requires i <= |s|
    ensures r.Some? ==> i < r.value <= |s|
  {
    var a :- AfterLiteral(s, i, LinkOpen);
    var b :- AfterSpaces(s, a);
    var c :- AfterLiteral(s, b, RelEditURI);
    var d :- AfterSpaces(s, c);
    var e :- AfterLiteral(s, d, TypeRSD);
    var f :- AfterSpaces(s, e);
    var g :- AfterLiteral(s, f, TitleRSD);
    var h :- AfterSpaces(s, g);
    AfterLiteral(s, h, HrefOpen)
  }

  /**
   * From the start of the address: the closing quote ends it, and the first
   * slash after that must be followed by `>`.
   */
  function CaptureFrom(s: string, start: nat): (r: Option<(nat, nat)>)
    requires start <= |s|
    ensures r.Some? ==> start == r.value.0 <= r.value.1 < |s|
    ensures r.Some? ==> forall k :: r.value.0 <= k < r.value.1 ==> s[k] != '"'
  {
    match FindFrom(s, start, '"')
    case None => None
    case Some(end) =>
      match FindFrom(s, end + 1, '/')
      case None => None
      case Some(slash) =>
        if slash + 1 < |s| && s[slash + 1] == '>' then Some((start, end)) else None
  }

  /** Where the captured address starts and ends, when a whole tag matches at `i`. */
  function MatchAt(s: string, i: nat): (r: Option<(nat, nat)>)
    requires i <= |s|
    ensures r.Some? ==> r.value.0 <= r.value.1 < |s|
  {
    match MatchHead(s, i)
    case None => None
    case Some(start) => CaptureFrom(s, start)
  }

  /** A matched address follows the tag head and holds no quote. */
  lemma MatchAtSpec(s: string, i: nat)
    requires i <= |s| && MatchAt(s, i).Some?
    ensures i <= MatchAt(s, i).value.0
    ensures forall k :: MatchAt(s, i).value.0 <= k < MatchAt(s, i).value.1 ==> s[k] != '"'
  {
  }

  /** Whether a whole tag matches at `i`. */
  predicate IsTagAt(s: string, i: nat)
  {
    i <= |s| && MatchAt(s, i).Some?
  }

  /** The least `k` in `i..n` with `p(k)`: the leftmost match. */
  function FirstFrom(p: nat -> bool, i: nat, n: nat): (r: Option<nat>)
    requires i <= n
    ensures r.Some? ==> i <= r.value <= n && p(r.value)
    ensures r.Some? ==> forall k :: i <= k < r.value ==> !p(k)
    ensures r.None? ==> forall k :: i <= k <= n ==> !p(k)
    decreases n - i
  {
    if p(i) then Some(i)
    else if i == n then None
    else FirstFrom(p, i + 1, n)
  }

  /** The positions of a page where a whole tag matches. */
  function TagAt(html: string): nat -> bool
  {
    (k: nat) => IsTagAt(html, k)
  }

  /** The address captured by the tag at `k`. */
  function CapturedAt(html: string, k: nat): (r: string)
    requires IsTagAt(html, k)
    ensures '"' !in r
  {
    var (start, end) := MatchAt(html, k).value;
    MatchAtSpec(html, k);
    assert forall j :: 0 <= j < end - start ==> html[start..end][j] == html[start + j];
    html[start..end]
  }

  /**
   * The address in the first RSD link of the page: what the leftmost tag
   * captures, or nothing when no tag matches.
   */
  function ExtractRSDURLFromHTML(html: string): (r: Option<string>)
    ensures r.None? <==> forall k :: 0 <= k <= |html| ==> !TagAt(html)(k)
    ensures r.Some? ==> '"' !in r.value
    ensures r.Some? ==>
              exists k :: && 0 <= k <= |html| && TagAt(html)(k) && IsTagAt(html, k)
                          && CapturedAt(html, k) == r.value
                          && forall k' :: 0 <= k' < k ==> !TagAt(html)(k')
  {
    match FirstFrom(TagAt(html), 0, |html|)
    case None => None
    case Some(k) => Some(CapturedAt(html, k))
  }

  /** The parts of the RSD link as WordPress writes it into a page's head. */
  const WrittenLinkOpen: string := "<link"
  const WrittenRel: string := "rel=\"EditURI\""
  const WrittenType: string := "type=\"application/rsd+xml\""
  const WrittenTitle: string := "title=\"RSD\""
  const WrittenHref: string := "href=\""
  const WrittenClose: string := "\" />"

  /** The RSD link WordPress writes for the endpoint `href`. */
  function RsdLinkTag(href: string): string
  {
    WrittenLinkOpen + (" " + (WrittenRel + (" " + (WrittenType + (" " + (WrittenTitle
      + (" " + (WrittenHref + (href + WrittenClose)))))))))
  }

  /** The parts as written match the pattern's literals without regard to case. */
  lemma WrittenLiterals()
    ensures |WrittenLinkOpen| == |LinkOpen| && Lower(WrittenLinkOpen) == LinkOpen
    ensures |WrittenRel| == |RelEditURI| && Lower(WrittenRel) == RelEditURI
    ensures |WrittenType| == |TypeRSD| && Lower(WrittenType) == TypeRSD
    ensures |WrittenTitle| == |TitleRSD| && Lower(WrittenTitle) == TitleRSD
    ensures |WrittenHref| == |HrefOpen| && Lower(WrittenHref) == HrefOpen
  {
    WrittenTypeMatches();
  }

  /** The `type` attribute on its own: a separate obligation keeps the lower-casing of the longest literal cheap. */
  lemma WrittenTypeMatches()
    ensures |WrittenType| == |TypeRSD| && Lower(WrittenType) == TypeRSD
  {
  }

  /**
   * Regrouping a concatenation, stated as a lemma so that each use is one
   * instance rather than an open sequence-equality question in a large proof.
   */
  lemma Reassociate(a: string, b: string, c: string)
    ensures (a + b) + c == a + (b + c)
  {
  }

  /** Where `s` goes on with `text + rest` at `i`, it has `text` there and `rest` after it. */
  lemma SplitAt(s: string, i: nat, text: string, rest: string)
    requires i <= |s| && s[i..] == text + rest
    ensures i + |text| <= |s| && s[i..i + |text|] == text && s[i + |text|..] == rest
  {
    var tail := s[i..];
    assert tail[..|text|] == s[i..i + |text|];
    assert (text + rest)[..|text|] == text;
    assert tail[|text|..] == s[i + |text|..];
    assert (text + rest)[|text|..] == rest;
  }

  /** Where `s` has `text` at `i`, and `text` lower-cased is `lit`, the literal is matched. */
  lemma LiteralHere(s: string, i: nat, text: string, lit: string)
    requires |text| == |lit| && i + |lit| <= |s| && s[i..i + |lit|] == text && Lower(text) == lit
    ensures AfterLiteral(s, i, lit) == Some(i + |lit|)
  {
    assert LiteralAt(s, i, lit);
  }

  /** Where `s` goes on with one space and then something else, `\s+` matches the space. */
  lemma SpaceHere(s: string, i: nat, rest: string)
    requires i <= |s| && s[i..] == " " + rest && rest != [] && !IsRegexSpace(rest[0])
    ensures AfterSpaces(s, i) == Some(i + 1)
    ensures s[i + 1..] == rest
  {
    assert s[i] == ' ' && s[i + 1] == rest[0];
    assert SkipSpaces(s, i + 1) == i + 1;
  }

  /** A literal followed by a single space and then something else. */
  lemma PieceHere(s: string, i: nat, text: string, lit: string, rest: string)
    requires i <= |s| && s[i..] == text + (" " + rest)
    requires |text| == |lit| && Lower(text) == lit
    requires rest != [] && !IsRegexSpace(rest[0])
    ensures AfterLiteral(s, i, lit) == Some(i + |lit|)
    ensures AfterSpaces(s, i + |lit|) == Some(i + |lit| + 1)
    ensures s[i + |lit| + 1..] == rest
  {
    SplitAt(s, i, text, " " + rest);
    LiteralHere(s, i, text, lit);
    SpaceHere(s, i + |lit|, rest);
  }

  /** The tag head as WordPress writes it matches, up to the start of the address. */
  lemma HeadHere(s: string, i: nat, href: string, after: string)
    requires i <= |s| && s[i..] == RsdLinkTag(href) + after
    ensures MatchHead(s, i) == Some(i + |RsdLinkTag(href)| - |href| - |WrittenClose|)
    ensures s[MatchHead(s, i).value..] == href + (WrittenClose + after)
  {
    WrittenLiterals();
    var r4 := WrittenHref + (href + WrittenClose);
    var r3 := WrittenTitle + (" " + r4);
    var r2 := WrittenType + (" " + r3);
    var r1 := WrittenRel + (" " + r2);
    var a := i + |LinkOpen|;
    Reassociate(WrittenLinkOpen, " " + r1, after);
    Reassociate(" ", r1, after);
    PieceHere(s, i, WrittenLinkOpen, LinkOpen, r1 + after);
    var c := a + 1 + |RelEditURI|;
    Reassociate(WrittenRel, " " + r2, after);
    Reassociate(" ", r2, after);
    PieceHere(s, a + 1, WrittenRel, RelEditURI, r2 + after);
    var e := c + 1 + |TypeRSD|;
    Reassociate(WrittenType, " " + r3, after);
    Reassociate(" ", r3, after);
    PieceHere(s, c + 1, WrittenType, TypeRSD, r3 + after);
    var g := e + 1 + |TitleRSD|;
    Reassociate(WrittenTitle, " " + r4, after);
    Reassociate(" ", r4, after);
    PieceHere(s, e + 1, WrittenTitle, TitleRSD, r4 + after);
    Reassociate(WrittenHref, href + WrittenClose, after);
    Reassociate(href, WrittenClose, after);
    SplitAt(s, g + 1, WrittenHref, href + (WrittenClose + after));
    LiteralHere(s, g + 1, WrittenHref, HrefOpen);
  }

  /** An address without quotes, closed as WordPress closes the tag, is captured whole. */
  lemma CaptureHere(s: string, start: nat, href: string, after: string)
    requires start <= |s| && s[start..] == href + (WrittenClose + after) && '"' !in href
    ensures CaptureFrom(s, start) == Some((start, start + |href|))
    ensures s[start..start + |href|] == href
  {
    var end := start + |href|;
    SplitAt(s, start, href, WrittenClose + after);
    assert forall k :: start <= k < end ==> s[k] == href[k - start];
    assert s[end] == '"' && s[end + 1] == ' ' && s[end + 2] == '/' && s[end + 3] == '>';
    assert FindFrom(s, start, '"') == Some(end);
    assert FindFrom(s, end + 1, '/') == Some(end + 2);
  }

  /** The tag as WordPress writes it matches where it is written, and captures its address. */
  lemma TagHere(s: string, i: nat, href: string, after: string)
    requires i <= |s| && s[i..] == RsdLinkTag(href) + after && '"' !in href
    ensures IsTagAt(s, i) && CapturedAt(s, i) == href
  {
    HeadHere(s, i, href, after);
    var start := MatchHead(s, i).value;
    CaptureHere(s, start, href, after);
  }

  /** Only a `<` can start a tag. */
  lemma TagStartsWithOpenBracket(s: string, i: nat)
    requires IsTagAt(s, i)
    ensures s[i] == '<'
  {
    assert MatchHead(s, i).Some?;
    assert LiteralAt(s, i, LinkOpen);
    assert Lower(s[i..i + |LinkOpen|])[0] == LowerChar(s[i]) == '<';
  }

  /** With no `<` before `i`, no tag matches before `i`. */
  lemma NoTagBefore(html: string, i: nat)
    requires i <= |html| && forall k :: 0 <= k < i ==> html[k] != '<'
    ensures forall k :: 0 <= k < i ==> !TagAt(html)(k)
  {
    forall k: nat | k < i
      ensures !TagAt(html)(k)
    {
      if IsTagAt(html, k) {
        TagStartsWithOpenBracket(html, k);
      }
    }
  }

  /** The leftmost tag decides the address. */
  lemma FirstTagDecides(html: string, i: nat)
    requires i <= |html| && TagAt(html)(i) && forall k :: 0 <= k < i ==> !TagAt(html)(k)
    ensures IsTagAt(html, i) && ExtractRSDURLFromHTML(html) == Some(CapturedAt(html, i))
  {
    var r := ExtractRSDURLFromHTML(html);
    assert r.Some?;
    var k :| && 0 <= k <= |html| && TagAt(html)(k) && IsTagAt(html, k)
             && CapturedAt(html, k) == r.value
             && forall k' :: 0 <= k' < k ==> !TagAt(html)(k');
    assert k == i;
  }

  /**
   * A page with no match of the pattern before the RSD link WordPress
   * writes, whose address holds no quote, yields that address, whatever
   * markup comes before the link or after it.
   */
  lemma ExtractWrittenLink(before: string, href: string, after: string)
    requires '"' !in href
    requires forall k :: 0 <= k < |before| ==> !IsTagAt(before + RsdLinkTag(href) + after, k)
    ensures ExtractRSDURLFromHTML(before + RsdLinkTag(href) + after) == Some(href)
  {
    var html := before + RsdLinkTag(href) + after;
    var i := |before|;
    assert html[i..] == RsdLinkTag(href) + after;
    TagHere(html, i, href, after);
    FirstTagDecides(html, i);
  }

  /** In particular, text without any `<` before the link cannot hold a match. */
  lemma ExtractWrittenLinkAfterText(before: string, href: string, after: string)
    requires '<' !in before && '"' !in href
    ensures ExtractRSDURLFromHTML(before + RsdLinkTag(href) + after) == Some(href)
  {
    var html := before + RsdLinkTag(href) + after;
    assert html[..|before|] == before;
    PrefixWithoutBracket(html, before);
    ExtractWrittenLink(before, href, after);
  }

  /** No tag starts inside a prefix without `<`. */
  lemma PrefixWithoutBracket(html: string, before: string)
    requires |before| <= |html| && html[..|before|] == before && '<' !in before
    ensures forall k :: 0 <= k < |before| ==> !IsTagAt(html, k)
  {
    forall k | 0 <= k < |before|
      ensures !IsTagAt(html, k)
    {
      assert html[k] == html[..|before|][k] == before[k];
      if IsTagAt(html, k) {
        TagStartsWithOpenBracket(html, k);
      }
    }
  }

  /** A page without any `<` has no RSD link. */
  lemma NoBracketNoLink(html: string)
    requires '<' !in html
    ensures ExtractRSDURLFromHTML(html) == None
  {
    NoTagBefore(html, |html|);
  }
}
