/**
 * String helpers behind the validator: Foundation's whitespace trimming,
 * substring search (`range(of:)`) and removal of every occurrence of a
 * pattern (`replacingOccurrences(of:with: "")`).
 */
module Text {

  /** Unicode general category Z (space, line and paragraph separators). */
  predicate IsUnicodeSeparator(c: char)
  {
    c == ' ' || c == '\U{A0}' || c == '\U{1680}' || ('\U{2000}' <= c <= '\U{200A}')
    || c == '\U{2028}' || c == '\U{2029}' || c == '\U{202F}' || c == '\U{205F}' || c == '\U{3000}'
  }

  /** Foundation's `CharacterSet.whitespacesAndNewlines`: category Z, U+0009..U+000D and U+0085. */
  predicate IsWhitespaceOrNewline(c: char)
  {
    IsUnicodeSeparator(c) || ('\t' <= c <= '\r') || c == '\U{85}'
  }

  /** Drops the leading whitespace and newlines. */
  function TrimStart(s: string): (r: string)
    ensures |r| <= |s|
  {
    if s != [] && IsWhitespaceOrNewline(s[0]) then TrimStart(s[1..]) else s
  }

  /** Drops the trailing whitespace and newlines. */
  function TrimEnd(s: string): (r: string)
    ensures |r| <= |s|
  {
    if s != [] && IsWhitespaceOrNewline(s[|s| - 1]) then TrimEnd(s[..|s| - 1]) else s
  }

  /** `trimmingCharacters(in: .whitespacesAndNewlines)`. */
  function Trim(s: string): (r: string)
    ensures |r| <= |s|
  {
    TrimEnd(TrimStart(s))
  }

  /** `TrimStart` removes exactly the leading run of whitespace. */
  lemma {:induction false} TrimStartSpec(s: string)
    ensures var r := TrimStart(s);
            && r == s[|s| - |r|..]
            && (r == [] || !IsWhitespaceOrNewline(r[0]))
            && forall i :: 0 <= i < |s| - |r| ==> IsWhitespaceOrNewline(s[i])
    decreases |s|
  {
    if s != [] && IsWhitespaceOrNewline(s[0]) {
      TrimStartSpec(s[1..]);
    }
  }

  /** `TrimEnd` removes exactly the trailing run of whitespace. */
  lemma {:induction false} TrimEndSpec(s: string)
    ensures var r := TrimEnd(s);
            && r == s[..|r|]
            && (r == [] || !IsWhitespaceOrNewline(r[|r| - 1]))
            && forall i :: |r| <= i < |s| ==> IsWhitespaceOrNewline(s[i])
    decreases |s|
  {
    if s != [] && IsWhitespaceOrNewline(s[|s| - 1]) {
      TrimEndSpec(s[..|s| - 1]);
    }
  }

  /** Trimming leaves nothing exactly when the string is all whitespace. */
  lemma TrimBlank(s: string)
    ensures Trim(s) == [] <==> forall i :: 0 <= i < |s| ==> IsWhitespaceOrNewline(s[i])
  {
    TrimStartSpec(s);
    TrimEndSpec(TrimStart(s));
  }

  /**
   * Trimming keeps a contiguous middle part of the string and drops only
   * whitespace on either side of it; what is left neither starts nor ends
   * with whitespace, and is empty exactly when the string is all whitespace.
   */
  lemma TrimSpec(s: string)
    ensures Trim(s) == [] <==> forall i :: 0 <= i < |s| ==> IsWhitespaceOrNewline(s[i])
    ensures Trim(s) != [] ==> !IsWhitespaceOrNewline(Trim(s)[0]) && !IsWhitespaceOrNewline(Trim(s)[|Trim(s)| - 1])
    ensures exists i, j :: && 0 <= i <= j <= |s| && Trim(s) == s[i..j]
                           && (forall k :: 0 <= k < i ==> IsWhitespaceOrNewline(s[k]))
                           && (forall k :: j <= k < |s| ==> IsWhitespaceOrNewline(s[k]))
  {
    var front := TrimStart(s);
    TrimStartSpec(s);
    TrimEndSpec(front);
    var r := TrimEnd(front);
    if r != [] {
      assert front[0] == r[0];
    }
    var i := |s| - |front|;
    var j := i + |r|;
    assert r == s[i..j];
    assert forall k :: j <= k < |s| ==> s[k] == front[k - i];
  }

  /** A string that neither starts nor ends with whitespace is its own trimmed form. */
  lemma TrimOfTrimmed(s: string)
    requires s == [] || (!IsWhitespaceOrNewline(s[0]) && !IsWhitespaceOrNewline(s[|s| - 1]))
    ensures Trim(s) == s
  {
  }

  /** Trimming twice trims nothing more. */
  lemma TrimIdempotent(s: string)
    ensures Trim(Trim(s)) == Trim(s)
  {
    TrimSpec(s);
    TrimOfTrimmed(Trim(s));
  }

  /** `p` occurs somewhere in `s` (`s.range(of: p) != nil`). */
  predicate Contains(s: string, p: string)
    decreases |s|
  {
    |p| <= |s| && (s[..|p|] == p || Contains(s[1..], p))
  }

  /**
   * `s.replacingOccurrences(of: p, with: "")`: scans left to right and drops
   * each non-overlapping occurrence of `p`; text that only forms `p` once an
   * occurrence has been dropped is kept.
   */
  function RemoveAll(s: string, p: string): (r: string)
    requires p != []
    ensures |r| <= |s|
    decreases |s|
  {
    if |s| < |p| then s
    else if s[..|p|] == p then RemoveAll(s[|p|..], p)
    else [s[0]] + RemoveAll(s[1..], p)
  }

  /** Removing `p` changes the string exactly when `p` occurs in it. */
  lemma {:induction false} RemoveAllUnchangedIff(s: string, p: string)
    requires p != []
    ensures RemoveAll(s, p) == s <==> !Contains(s, p)
    decreases |s|
  {
    if |s| < |p| {
    } else if s[..|p|] == p {
      assert |RemoveAll(s[|p|..], p)| < |s|;
    } else {
      RemoveAllUnchangedIff(s[1..], p);
      assert RemoveAll(s, p) == [s[0]] + RemoveAll(s[1..], p);
      assert s == [s[0]] + s[1..];
    }
  }

  /** Text without the first character of `p` is left as it is. */
  lemma {:induction false} RemoveAllPlain(h: string, p: string)
    requires p != [] && p[0] !in h
    ensures RemoveAll(h, p) == h
    decreases |h|
  {
    if |h| >= |p| {
      assert h[0] != p[0];
      assert h[..|p|] != p;
      RemoveAllPlain(h[1..], p);
      assert [h[0]] + h[1..] == h;
    }
  }

  /**
   * An occurrence of `p` after text without `p`'s first character is dropped,
   * and removal carries on in what follows it.
   */
  lemma {:induction false} RemoveAllAfterPlain(h: string, p: string, t: string)
    requires p != [] && p[0] !in h
    ensures RemoveAll(h + p + t, p) == h + RemoveAll(t, p)
    decreases |h|
  {
    var s := h + p + t;
    if h == [] {
      assert s == p + t;
      assert s[..|p|] == p;
      assert s[|p|..] == t;
    } else {
      var rest := h[1..] + p + t;
      assert s == [h[0]] + rest;
      assert s[..|p|] != p by {
        assert s[0] == h[0];
        assert h[0] in h;
      }
      assert s[1..] == rest;
      calc {
        RemoveAll(s, p);
        [h[0]] + RemoveAll(rest, p);
        { RemoveAllAfterPlain(h[1..], p, t); }
        [h[0]] + (h[1..] + RemoveAll(t, p));
        { assert [h[0]] + h[1..] == h; }
        h + RemoveAll(t, p);
      }
    }
  }

  /** A trailing `p` is stripped completely when the text before it does not contain `p`'s first character. */
  lemma {:induction false} RemoveAllTrailing(h: string, p: string)
    requires p != [] && p[0] !in h
    ensures RemoveAll(h + p, p) == h
  {
    RemoveAllAfterPlain(h, p, []);
    assert h + p + [] == h + p;
    assert RemoveAll([], p) == [];
    assert h + [] == h;
  }

  /** `pieces` joined with `p` between consecutive pieces. */
  function JoinWith(pieces: seq<string>, p: string): string
    requires |pieces| >= 1
  {
    if |pieces| == 1 then pieces[0] else pieces[0] + p + JoinWith(pieces[1..], p)
  }

  /** `pieces` run together. */
  function Concat(pieces: seq<string>): string
  {
    if pieces == [] then [] else pieces[0] + Concat(pieces[1..])
  }

  /**
   * Every occurrence of `p` is removed: text made of pieces without `p`'s first
   * character, with `p` between them, loses each `p` and keeps each piece.
   */
  lemma {:induction false} RemoveAllEveryOccurrence(pieces: seq<string>, p: string)
    requires p != [] && |pieces| >= 1
    requires forall k :: 0 <= k < |pieces| ==> p[0] !in pieces[k]
    ensures RemoveAll(JoinWith(pieces, p), p) == Concat(pieces)
    decreases |pieces|
  {
    if |pieces| == 1 {
      RemoveAllPlain(pieces[0], p);
      assert Concat(pieces[1..]) == [];
      assert pieces[0] + [] == pieces[0];
    } else {
      assert p[0] !in pieces[0];
      RemoveAllAfterPlain(pieces[0], p, JoinWith(pieces[1..], p));
      RemoveAllEveryOccurrence(pieces[1..], p);
    }
  }

  /** ASCII lower-casing of one character (`lowercased()` on the characters that matter here). */
  function LowerChar(c: char): (r: char)
    ensures 'A' <= c <= 'Z' ==> 'a' <= r <= 'z'
    ensures !('A' <= c <= 'Z') ==> r == c
  {
    if 'A' <= c <= 'Z' then (c as int - 'A' as int + 'a' as int) as char else c
  }

  /** `lowercased()`, character by character. */
  function Lower(s: string): (r: string)
    ensures |r| == |s|
    ensures forall k :: 0 <= k < |s| ==> r[k] == LowerChar(s[k])
  {
    seq(|s|, k requires 0 <= k < |s| => LowerChar(s[k]))
  }
}
