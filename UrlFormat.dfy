/**
 * The URL-format check of the service (`is_valid_url`): Python's `re.match` of
 * `^(?:http|ftp)s?://\S+$` with re.IGNORECASE.
 *
 * `IsValidUrl` follows the matcher step by step: the scheme, the greedy run of
 * non-space characters that `\S+` consumes, and the `$` anchor. `ValidUrlSpec`
 * says declaratively which strings are URLs. `IsValidUrlIffSpec` proves that the
 * two agree on every string; the remaining lemmas state the boundary behaviour.
 */
module UrlFormat {

  import opened Wrappers

  /**
   * Python's `\s` on str patterns: the code points for which str.isspace() holds
   * (ASCII tab through carriage return, the four information separators, space,
   * NEL, no-break space and the Unicode space separators and line/paragraph breaks).
   */
  predicate IsSpace(c: char) {
    var n := c as int;
    (0x09 <= n <= 0x0D) || (0x1C <= n <= 0x20) || n == 0x85 || n == 0xA0 || n == 0x1680 ||
    (0x2000 <= n <= 0x200A) || n == 0x2028 || n == 0x2029 || n == 0x202F || n == 0x205F || n == 0x3000
  }

  /**
   * Does the subject character `c` match the pattern character `p` under re.IGNORECASE?
   * An ASCII letter matches either case; Python's matcher also treats U+017F
   * (LATIN SMALL LETTER LONG S) as a case variant of `s`. Any other pattern character
   * matches only itself.
   */
  predicate MatchesIgnoringCase(c: char, p: char) {
    if 'a' <= p <= 'z' then
      c == p || c as int == p as int - 32 || (p == 's' && c == '\U{017F}')
    else
      c == p
  }

  /** The pattern literal `lit` occurs in `s` at position `i`, ignoring case: matched character by character. */
  predicate LiteralAt(s: string, i: nat, lit: string)
    decreases lit
  {
    if lit == [] then i <= |s|
    else i < |s| && MatchesIgnoringCase(s[i], lit[0]) && LiteralAt(s, i + 1, lit[1..])
  }

  /**
   * The position just after `(?:http|ftp)s?://` at the start of `s`, or None when the
   * scheme does not match. The branches are tried in the pattern's order: `http`
   * before `ftp`, and the optional `s` taken before it is skipped.
   */
  function SchemeEnd(s: string): (r: Option<nat>)
    ensures r.Some? ==> r.value <= |s|
  {
    var stem := if LiteralAt(s, 0, "http") then 4 else if LiteralAt(s, 0, "ftp") then 3 else 0;
    if stem == 0 then None
    else if LiteralAt(s, stem, "s://") then Some(stem + 4)
    else if LiteralAt(s, stem, "://") then Some(stem + 3)
    else None
  }

  /** Where the greedy run of non-space characters that starts at `i` ends: what `\S+` consumes. */
  function RunEnd(s: string, i: nat): (e: nat)
    requires i <= |s|
    ensures i <= e <= |s|
    ensures forall k :: i <= k < e ==> !IsSpace(s[k])
    ensures e < |s| ==> IsSpace(s[e])
    decreases |s| - i
  {
    if i < |s| && !IsSpace(s[i]) then RunEnd(s, i + 1) else i
  }

  /** `$` without re.MULTILINE: the end of the string, or just before a final newline. */
  predicate AtEnd(s: string, e: nat) {
    e == |s| || (e + 1 == |s| && s[e] == '\n')
  }

  /** `is_valid_url`: the pattern matches at the start of `url`. */
  predicate IsValidUrl(url: string) {
    match SchemeEnd(url)
    case None => false
    case Some(i) => var e := RunEnd(url, i); i < e && AtEnd(url, e)
  }

  // ----- The declarative definition -----

  /** The four schemes the pattern admits, in lower case. */
  const Schemes: seq<string> := ["http://", "https://", "ftp://", "ftps://"]

  predicate NoSpace(r: string) {
    forall k :: 0 <= k < |r| ==> !IsSpace(r[k])
  }

  /** What may follow the scheme: one or more non-space characters, then at most one newline. */
  predicate ValidRest(r: string) {
    (|r| > 0 && NoSpace(r)) || (|r| > 1 && r[|r| - 1] == '\n' && NoSpace(r[..|r| - 1]))
  }

  /** `url` starts with one of the schemes in any case, and the rest is a valid remainder. */
  ghost predicate ValidUrlSpec(url: string) {
    exists w :: w in Schemes && LiteralAt(url, 0, w) && ValidRest(url[|w|..])
  }

  // ----- Lemmas -----

  /** Matching a literal is matching each of its characters at the corresponding position. */
  lemma {:induction false} LiteralAtChars(s: string, i: nat, lit: string)
    ensures LiteralAt(s, i, lit) <==>
      i + |lit| <= |s| && forall k :: 0 <= k < |lit| ==> MatchesIgnoringCase(s[i + k], lit[k])
    decreases lit
  {
    if lit != [] {
      LiteralAtChars(s, i + 1, lit[1..]);
      if i + |lit| <= |s| && forall k :: 0 <= k < |lit| ==> MatchesIgnoringCase(s[i + k], lit[k]) {
        forall k | 0 <= k < |lit[1..]| ensures MatchesIgnoringCase(s[i + 1 + k], lit[1..][k]) {
          assert s[i + 1 + k] == s[i + (k + 1)];
        }
        assert MatchesIgnoringCase(s[i + 0], lit[0]);
      }
      if LiteralAt(s, i, lit) {
        forall k | 0 <= k < |lit| ensures MatchesIgnoringCase(s[i + k], lit[k]) {
          if k > 0 {
            assert lit[k] == lit[1..][k - 1];
            assert s[i + k] == s[i + 1 + (k - 1)];
          }
        }
      }
    }
  }

  lemma {:induction false} LiteralConcat(s: string, i: nat, a: string, b: string)
    ensures LiteralAt(s, i, a + b) <==> LiteralAt(s, i, a) && LiteralAt(s, i + |a|, b)
    decreases a
  {
    if a == [] {
      assert a + b == b;
      if LiteralAt(s, i, b) {
        LiteralAtChars(s, i, b);
      }
    } else {
      assert (a + b)[0] == a[0] && (a + b)[1..] == a[1..] + b;
      LiteralConcat(s, i + 1, a[1..], b);
    }
  }

  /** The four schemes, each split where the matcher splits it: the stem, then `s://` or `://`. */
  lemma SchemesSplit(s: string)
    ensures LiteralAt(s, 0, Schemes[0]) <==> LiteralAt(s, 0, "http") && LiteralAt(s, 4, "://")
    ensures LiteralAt(s, 0, Schemes[1]) <==> LiteralAt(s, 0, "http") && LiteralAt(s, 4, "s://")
    ensures LiteralAt(s, 0, Schemes[2]) <==> LiteralAt(s, 0, "ftp") && LiteralAt(s, 3, "://")
    ensures LiteralAt(s, 0, Schemes[3]) <==> LiteralAt(s, 0, "ftp") && LiteralAt(s, 3, "s://")
  {
    LiteralConcat(s, 0, "http", "://");
    LiteralConcat(s, 0, "http", "s://");
    LiteralConcat(s, 0, "ftp", "://");
    LiteralConcat(s, 0, "ftp", "s://");
    assert Schemes[0] == "http" + "://" && Schemes[1] == "http" + "s://";
    assert Schemes[2] == "ftp" + "://" && Schemes[3] == "ftp" + "s://";
  }

  /** The scheme matcher finds exactly the schemes of the declarative definition. */
  lemma SchemeEndFindsScheme(s: string)
    ensures SchemeEnd(s).Some? ==> exists w :: w in Schemes && LiteralAt(s, 0, w) && |w| == SchemeEnd(s).value
    ensures forall w :: w in Schemes && LiteralAt(s, 0, w) ==> SchemeEnd(s) == Some(|w|)
  {
    SchemesSplit(s);
    var http, ftp := LiteralAt(s, 0, "http"), LiteralAt(s, 0, "ftp");
    assert !(http && ftp) by { if http { assert MatchesIgnoringCase(s[0], 'h'); } }
    if http {
      assert !(LiteralAt(s, 4, "s://") && LiteralAt(s, 4, "://")) by {
        if LiteralAt(s, 4, "s://") { assert MatchesIgnoringCase(s[4], 's'); }
      }
    }
    if ftp {
      assert !(LiteralAt(s, 3, "s://") && LiteralAt(s, 3, "://")) by {
        if LiteralAt(s, 3, "s://") { assert MatchesIgnoringCase(s[3], 's'); }
      }
    }
    if SchemeEnd(s).Some? {
      var w := if http && LiteralAt(s, 4, "s://") then Schemes[1]
        else if http then Schemes[0]
        else if LiteralAt(s, 3, "s://") then Schemes[3]
        else Schemes[2];
      assert w in Schemes && LiteralAt(s, 0, w) && |w| == SchemeEnd(s).value;
    }
    forall w | w in Schemes && LiteralAt(s, 0, w) ensures SchemeEnd(s) == Some(|w|) {
      assert w == Schemes[0] || w == Schemes[1] || w == Schemes[2] || w == Schemes[3];
    }
  }

  /** After position `i`, `\S+$` matches exactly when the rest is a valid remainder. */
  lemma RestMatches(s: string, i: nat)
    requires i <= |s|
    ensures (i < RunEnd(s, i) && AtEnd(s, RunEnd(s, i))) <==> ValidRest(s[i..])
  {
    var e, r := RunEnd(s, i), s[i..];
    if i < e && AtEnd(s, e) {
      if e == |s| {
        assert NoSpace(r) by {
          forall k | 0 <= k < |r| ensures !IsSpace(r[k]) { assert r[k] == s[i + k]; }
        }
      } else {
        assert r[..|r| - 1] == s[i..e];
        assert r[|r| - 1] == s[e];
      }
    }
    if ValidRest(r) {
      if |r| > 0 && NoSpace(r) {
        assert e != i by { assert r[0] == s[i]; }
      } else {
        var p := r[..|r| - 1];
        assert s[|s| - 1] == r[|r| - 1];
        assert e != i by { assert p[0] == s[i]; }
      }
    }
  }

  /** The matcher and the declarative definition agree on every string. */
  lemma IsValidUrlIffSpec(url: string)
    ensures IsValidUrl(url) <==> ValidUrlSpec(url)
  {
    SchemeEndFindsScheme(url);
    match SchemeEnd(url)
    case None =>
    case Some(i) =>
      RestMatches(url, i);
      if IsValidUrl(url) {
        var w :| w in Schemes && LiteralAt(url, 0, w) && |w| == i;
        assert ValidRest(url[|w|..]);
      }
  }

  /** No character of `lit` is whitespace. */
  predicate PlainLiteral(lit: string)
    decreases lit
  {
    lit == [] || (!IsSpace(lit[0]) && PlainLiteral(lit[1..]))
  }

  /** Characters that match a literal without whitespace are not whitespace either. */
  lemma {:induction false} LiteralAtNoSpace(s: string, i: nat, lit: string)
    requires LiteralAt(s, i, lit) && PlainLiteral(lit)
    ensures i + |lit| <= |s| && forall k :: i <= k < i + |lit| ==> !IsSpace(s[k])
    decreases lit
  {
    if lit != [] {
      LiteralAtNoSpace(s, i + 1, lit[1..]);
    }
  }

  /** No character of a matched scheme is whitespace. */
  lemma SchemeHasNoSpace(s: string)
    requires SchemeEnd(s).Some?
    ensures forall k :: 0 <= k < SchemeEnd(s).value ==> !IsSpace(s[k])
  {
    var stem := if LiteralAt(s, 0, "http") then "http" else "ftp";
    LiteralAtNoSpace(s, 0, stem);
    var sep := if LiteralAt(s, |stem|, "s://") then "s://" else "://";
    LiteralAtNoSpace(s, |stem|, sep);
  }

  /** A literal matches its own characters wherever they occur. */
  lemma {:induction false} LiteralAtItself(s: string, i: nat, lit: string)
    requires i + |lit| <= |s| && s[i..i + |lit|] == lit
    ensures LiteralAt(s, i, lit)
    decreases lit
  {
    if lit != [] {
      assert s[i] == lit[0];
      assert s[i + 1..i + 1 + |lit[1..]|] == lit[1..];
      LiteralAtItself(s, i + 1, lit[1..]);
    }
  }

  /** A literal that matches in `a` still matches once `a` is extended. */
  lemma {:induction false} LiteralPrefix(a: string, b: string, i: nat, lit: string)
    requires LiteralAt(a, i, lit)
    ensures LiteralAt(a + b, i, lit)
    decreases lit
  {
    if lit != [] {
      assert (a + b)[i] == a[i];
      LiteralPrefix(a, b, i + 1, lit[1..]);
    }
  }

  /**
   * A scheme, in any case, followed by one or more non-space characters is a URL:
   * the accepting direction of the format check.
   */
  lemma SchemeThenNonSpaceAccepted(w: string, scheme: string, rest: string)
    requires w in Schemes && |scheme| == |w| && LiteralAt(scheme, 0, w)
    requires |rest| > 0 && NoSpace(rest)
    ensures IsValidUrl(scheme + rest)
  {
    var url := scheme + rest;
    assert url[..|w|] == scheme && url[|w|..] == rest;
    LiteralPrefix(scheme, rest, 0, w);
    IsValidUrlIffSpec(url);
  }

  /** In particular a scheme written in lower case, followed by non-space characters, is a URL. */
  lemma LowerCaseSchemeAccepted(w: string, rest: string)
    requires w in Schemes && |rest| > 0 && NoSpace(rest)
    ensures IsValidUrl(w + rest)
  {
    LiteralAtItself(w, 0, w);
    SchemeThenNonSpaceAccepted(w, w, rest);
  }

  /** A scheme alone, in any case, is not a URL: `\S+` needs at least one character. */
  lemma BareSchemeRejected(w: string, url: string)
    requires w in Schemes && |url| == |w| && LiteralAt(url, 0, w)
    ensures !IsValidUrl(url)
  {
    SchemeEndFindsScheme(url);
  }

  /**
   * A URL may contain no whitespace anywhere, in the scheme or after it; the one
   * exception is a single newline as the very last character.
   */
  lemma WhitespaceRejected(url: string, k: nat)
    requires k < |url| && IsSpace(url[k])
    requires !(k + 1 == |url| && url[k] == '\n')
    ensures !IsValidUrl(url)
  {
    if IsValidUrl(url) {
      var i := SchemeEnd(url).value;
      SchemeHasNoSpace(url);
    }
  }

  /** Whether a URL ends in a newline does not change which literals match inside it. */
  lemma {:induction false} LiteralIgnoresNewline(url: string, j: nat, lit: string)
    requires |lit| > 0 && forall k :: 0 <= k < |lit| ==> lit[k] != '\n'
    ensures LiteralAt(url + "\n", j, lit) <==> LiteralAt(url, j, lit)
    decreases lit
  {
    var s := url + "\n";
    if j < |url| {
      assert s[j] == url[j];
      if |lit| > 1 {
        LiteralIgnoresNewline(url, j + 1, lit[1..]);
      }
    } else if j == |url| {
      assert s[j] == '\n' && lit[0] != '\n';
    }
  }

  lemma {:induction false} RunEndIgnoresNewline(url: string, i: nat)
    requires i <= |url|
    ensures RunEnd(url + "\n", i) == RunEnd(url, i)
    decreases |url| - i
  {
    var s := url + "\n";
    if i < |url| {
      assert s[i] == url[i];
      if !IsSpace(url[i]) {
        RunEndIgnoresNewline(url, i + 1);
      }
    } else {
      assert s[i] == '\n';
    }
  }

  /**
   * `$` also matches before a final newline, so appending one newline to a URL keeps it
   * valid, while a second newline, or a newline after a bare scheme, is rejected.
   */
  lemma TrailingNewline(url: string)
    ensures IsValidUrl(url + "\n") <==> |url| > 0 && IsValidUrl(url) && url[|url| - 1] != '\n'
  {
    var s := url + "\n";
    LiteralIgnoresNewline(url, 0, "http");
    LiteralIgnoresNewline(url, 0, "ftp");
    LiteralIgnoresNewline(url, 3, "s://");
    LiteralIgnoresNewline(url, 3, "://");
    LiteralIgnoresNewline(url, 4, "s://");
    LiteralIgnoresNewline(url, 4, "://");
    assert SchemeEnd(s) == SchemeEnd(url);
    match SchemeEnd(url)
    case None =>
    case Some(i) =>
      RunEndIgnoresNewline(url, i);
      var e := RunEnd(url, i);
      if e == |url| && i < e {
        assert !IsSpace(url[|url| - 1]);
      }
  }

  /** An ordinary https URL is accepted. */
  lemma ExampleUrlAccepted()
    ensures IsValidUrl("https://example.com")
  {
    LowerCaseSchemeAccepted(Schemes[1], "example.com");
    assert Schemes[1] + "example.com" == "https://example.com";
  }

  /** A string without a scheme is rejected. */
  lemma NoSchemeRejected()
    ensures !IsValidUrl("not-a-url")
  {
  }

  /** The scheme is matched ignoring case. */
  lemma SchemeCaseIgnored()
    ensures IsValidUrl("HTTP://a")
  {
  }

  /** Python's matcher takes U+017F (LATIN SMALL LETTER LONG S) for the optional `s`. */
  lemma LongSExample()
    ensures IsValidUrl("http\U{017F}://a")
  {
    SchemeThenNonSpaceAccepted(Schemes[1], "http\U{017F}://", "a");
    assert "http\U{017F}://" + "a" == "http\U{017F}://a";
  }

  /** One final newline is tolerated by `$`, a second one is not. */
  lemma FinalNewlineExamples()
    ensures IsValidUrl("http://a\n")
    ensures !IsValidUrl("http://a\n\n")
  {
    LowerCaseSchemeAccepted(Schemes[0], "a");
    var url := Schemes[0] + "a";
    TrailingNewline(url);
    assert url + "\n" == "http://a\n";
    WhitespaceRejected("http://a\n\n", 8);
  }

  /** A bare scheme and a URL with inner whitespace are rejected. */
  lemma BareAndSpacedExamples()
    ensures !IsValidUrl("http://")
    ensures !IsValidUrl("http://a b")
  {
    LiteralAtItself(Schemes[0], 0, Schemes[0]);
    BareSchemeRejected(Schemes[0], Schemes[0]);
    WhitespaceRejected("http://a b", 8);
  }
}
