/**
 * `parseCommentForUrl`: the first URL-shaped substring of a comment, parsed by the URL parser
 * and dropped when its href mentions `localhost` or `github.com` (the `.` a wildcard).
 *
 * The URL parser (`new URL(text)`, with no base) is a foreign library: here it is the parameter
 * `parseUrl`, a partial function from text to the parsed href, `None` where it throws.
 */
module UrlExtractor {
  import opened Wrappers
  import opened UrlGrammar
  import opened UrlScanner

  /** The characters the regular-expression `.` does not match without the `s` flag. */
  predicate IsLineTerminator(c: char) {
    c == '\n' || c == '\r' || c == '\U{2028}' || c == '\U{2029}'
  }

  /** `lit` occurs at index `k` of `h`, case-sensitively. */
  predicate SubstringAt(h: string, k: int, lit: string) {
    0 <= k && k + |lit| <= |h| && h[k..k + |lit|] == lit
  }

  /** `github.com` as a regular expression matches at index `k` of `h`: `github`, then any one
      character but a line terminator, then `com`. */
  predicate GithubComAt(h: string, k: int) {
    && SubstringAt(h, k, "github")
    && SubstringAt(h, k + 7, "com")
    && !IsLineTerminator(h[k + 6])
  }

  /** The href filter matches: `localhost`, or `github.com` read as a pattern, anywhere in the
      href, case-sensitively. */
  predicate IsExcludedHref(h: string) {
    exists k :: 0 <= k < |h| && (SubstringAt(h, k, "localhost") || GithubComAt(h, k))
  }

  /** The URL mentioned first in `comment`, or `None` (`null`): when the pattern finds nothing,
      when the URL parser rejects the match, or when the href is excluded. */
  function ParseCommentForUrl(comment: string, parseUrl: string -> Option<string>): Option<string> {
    match FirstMatch(comment)
    case None => None
    case Some((i, j)) =>
      match parseUrl(comment[i..j])
      case None => None
      case Some(href) => if IsExcludedHref(href) then None else Some(href)
  }

  /** Without a match of the pattern the result is `None`; a result is never an excluded href. */
  lemma ParseCommentForUrlSpec(comment: string, parseUrl: string -> Option<string>)
    ensures (forall i, j :: !MatchAt(comment, i, j)) ==> ParseCommentForUrl(comment, parseUrl) == None
    ensures ParseCommentForUrl(comment, parseUrl).Some? ==>
              !IsExcludedHref(ParseCommentForUrl(comment, parseUrl).value)
  {
  }

  /** Given the first match of the pattern in `comment`, the result is the parsed href of exactly
      that text when the parser accepts it and the href is not excluded, and `None` otherwise. */
  lemma ParseCommentOfFirstMatch(comment: string, parseUrl: string -> Option<string>, i: int, j: int)
    requires IsFirstMatch(comment, i, j)
    ensures 0 <= i < j <= |comment|
    ensures parseUrl(comment[i..j]).None? ==> ParseCommentForUrl(comment, parseUrl) == None
    ensures parseUrl(comment[i..j]).Some? ==>
              var href := parseUrl(comment[i..j]).value;
              ParseCommentForUrl(comment, parseUrl) == if IsExcludedHref(href) then None else Some(href)
  {
    MatchAtBounds(comment, i, j);
    FirstMatchIs(comment, i, j);
  }

  /** Text placed after a separator (whitespace, say) that follows the first URL never changes the
      result: only the leftmost URL of a comment is used. */
  lemma LaterUrlIgnored(comment: string, sep: char, rest: string, parseUrl: string -> Option<string>)
    requires FirstMatch(comment).Some? && IsSeparator(sep)
    ensures ParseCommentForUrl(comment + [sep] + rest, parseUrl) == ParseCommentForUrl(comment, parseUrl)
  {
    var u := comment + [sep] + rest;
    assert u[..|comment|] == comment;
    assert u[|comment|] == sep;
    var (i, j) := FirstMatch(comment).value;
    FirstMatchIgnoresLaterText(u, comment, i, j);
    assert u[i..j] == comment[i..j];
    SameFirstMatchSameResult(u, comment, parseUrl, i, j);
  }

  /** Two comments with the same first match, over the same text, give the same result. */
  lemma SameFirstMatchSameResult(c1: string, c2: string, parseUrl: string -> Option<string>, i: int, j: int)
    requires IsFirstMatch(c1, i, j) && IsFirstMatch(c2, i, j)
    requires 0 <= i <= j <= |c1| && j <= |c2| && c1[i..j] == c2[i..j]
    ensures ParseCommentForUrl(c1, parseUrl) == ParseCommentForUrl(c2, parseUrl)
  {
    FirstMatchIs(c1, i, j);
    FirstMatchIs(c2, i, j);
  }

  /** The href filter drops `localhost` anywhere in the href. */
  lemma LocalhostExcluded()
    ensures IsExcludedHref("http://localhost:8080/")
  {
    assert SubstringAt("http://localhost:8080/", 7, "localhost");
  }

  /** The href filter drops the platform's own links. */
  lemma GithubExcluded()
    ensures IsExcludedHref("https://github.com/x")
  {
    assert GithubComAt("https://github.com/x", 8);
  }

  /** The `.` of `github.com` is a wildcard and the test covers the whole href, not only its host. */
  lemma WildcardExcluded()
    ensures IsExcludedHref("https://a.io/?github-com")
  {
    assert GithubComAt("https://a.io/?github-com", 14);
  }

  /** The test is case-sensitive. */
  lemma UpperCaseNotExcluded()
    ensures !IsExcludedHref("https://GitHub.com/")
  {
    var h := "https://GitHub.com/";
    assert 'l' !in h && 'g' !in h;
    forall k | 0 <= k < |h| ensures !SubstringAt(h, k, "localhost") && !GithubComAt(h, k) {
      if SubstringAt(h, k, "localhost") {
        SubstringFirstChar(h, k, "localhost");
      }
      if SubstringAt(h, k, "github") {
        SubstringFirstChar(h, k, "github");
      }
    }
  }

  /** The first character of a literal found at `k`. */
  lemma SubstringFirstChar(h: string, k: int, lit: string)
    requires SubstringAt(h, k, lit) && |lit| > 0
    ensures h[k] == lit[0]
  {
    assert h[k..k + |lit|][0] == h[k];
  }
}
