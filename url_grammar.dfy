/**
 * The language of the URL regular expression in `parseCommentForUrl`, stated declaratively:
 *
 *   (?:(?:https?|file):\/\/|www\.)(?:\(B*\)|B)*(?:\(B*\)|F)     with flags i, g, m
 *
 * where B is the body class [-A-Z0-9+&@#/%=~_|$?!:,.] and F the final class
 * [A-Z0-9+&@#/%=~_|$]. The flag `i` without `u` folds ASCII letters only; `m` has no
 * effect because the pattern has no anchors.
 */
module UrlGrammar {

  /** One character of the final class F, matched case-insensitively. */
  predicate IsFinalChar(c: char) {
    ('A' <= c <= 'Z') || ('a' <= c <= 'z') || ('0' <= c <= '9') || c in "+&@#/%=~_|$"
  }

  /** One character of the body class B: F plus the six characters a URL may not end with. */
  predicate IsBodyChar(c: char) {
    IsFinalChar(c) || c in "-?!:,."
  }

  /** ASCII lower-casing, the only case folding the pattern's `i` flag applies to its literals. */
  function Lower(c: char): char {
    if 'A' <= c <= 'Z' then (c as int - 'A' as int + 'a' as int) as char else c
  }

  /** The lower-case literal `lit` occurs at index `i` of `s`, ignoring ASCII case. */
  predicate LiteralAt(s: string, i: int, lit: string) {
    0 <= i && i + |lit| <= |s| && forall k :: 0 <= k < |lit| ==> Lower(s[i + k]) == lit[k]
  }

  /** The alternation `(?:https?|file):\/\/|www\.` matches `s[i..i+len]`. */
  predicate PrefixAt(s: string, i: int, len: int) {
    || (len == 7 && LiteralAt(s, i, "http://"))
    || (len == 8 && LiteralAt(s, i, "https://"))
    || (len == 7 && LiteralAt(s, i, "file://"))
    || (len == 4 && LiteralAt(s, i, "www."))
  }

  /** The group alternative `\(B*\)` matches `s[a..e]`. */
  predicate IsGroup(s: string, a: int, e: int) {
    && 0 <= a && a + 2 <= e <= |s|
    && s[a] == '(' && s[e - 1] == ')'
    && forall k :: a < k < e - 1 ==> IsBodyChar(s[k])
  }

  /** A body token `(?:\(B*\)|B)` matches `s[a..e]`. */
  predicate IsToken(s: string, a: int, e: int) {
    (0 <= a && e == a + 1 <= |s| && IsBodyChar(s[a])) || IsGroup(s, a, e)
  }

  /** A final token `(?:\(B*\)|F)` matches `s[a..e]`. */
  predicate IsFinalToken(s: string, a: int, e: int) {
    (0 <= a && e == a + 1 <= |s| && IsFinalChar(s[a])) || IsGroup(s, a, e)
  }

  /** `s[a..c]` is a run of zero or more body tokens: the starred part of the pattern. */
  ghost predicate TokenRun(s: string, a: int, c: int)
    decreases c - a
  {
    0 <= a <= c <= |s| && (a == c || exists e :: a < e <= c && IsToken(s, a, e) && TokenRun(s, e, c))
  }

  /** `s[b..j]` is a token run followed by one final token. */
  ghost predicate Tail(s: string, b: int, j: int) {
    exists m :: b <= m < j && TokenRun(s, b, m) && IsFinalToken(s, m, j)
  }

  /** The whole pattern matches `s[i..j]`. */
  ghost predicate MatchAt(s: string, i: int, j: int) {
    exists len :: PrefixAt(s, i, len) && Tail(s, i + len, j)
  }

  /** What `exec` returns from a fresh literal: the match with the leftmost start, and at that
      start the one the greedy star reaches first, which is the longest (see UrlScanner). */
  ghost predicate IsFirstMatch(s: string, i: int, j: int) {
    && MatchAt(s, i, j)
    && (forall i', j' :: i' < i ==> !MatchAt(s, i', j'))
    && (forall j' :: MatchAt(s, i, j') ==> j' <= j)
  }

  /** Neither `(` nor `)` is a body character, so tokens never overlap in more than one way. */
  lemma TokenDeterministic(s: string, a: int, e1: int, e2: int)
    requires IsToken(s, a, e1) && IsToken(s, a, e2)
    ensures e1 == e2
  {
  }

  /** A final token is a body token. */
  lemma FinalTokenIsToken(s: string, a: int, e: int)
    requires IsFinalToken(s, a, e)
    ensures IsToken(s, a, e)
    ensures s[a] == '(' || IsFinalChar(s[a])
  {
  }

  /** Two token runs from the same start are one a prefix of the other. */
  lemma {:induction false} RunChain(s: string, b: int, p: int, m: int)
    requires TokenRun(s, b, p) && TokenRun(s, b, m) && p <= m
    ensures TokenRun(s, p, m)
    decreases p - b
  {
    if b < p {
      var e1 :| b < e1 <= p && IsToken(s, b, e1) && TokenRun(s, e1, p);
      var e2 :| b < e2 <= m && IsToken(s, b, e2) && TokenRun(s, e2, m);
      TokenDeterministic(s, b, e1, e2);
      RunChain(s, e1, p, m);
    }
  }

  /** A token that starts at a boundary inside a run ends inside that run. */
  lemma TokenInsideRun(s: string, b: int, p: int, m: int, e: int)
    requires TokenRun(s, b, p) && TokenRun(s, b, m) && m < p && IsToken(s, m, e)
    ensures e <= p
  {
    RunChain(s, b, m, p);
    var e' :| m < e' <= p && IsToken(s, m, e') && TokenRun(s, e', p);
    TokenDeterministic(s, m, e, e');
  }

  /** A run extended by one token is still a run. */
  lemma {:induction false} RunExtend(s: string, b: int, p: int, e: int)
    requires TokenRun(s, b, p) && IsToken(s, p, e)
    ensures TokenRun(s, b, e)
    decreases p - b
  {
    if b < p {
      var e1 :| b < e1 <= p && IsToken(s, b, e1) && TokenRun(s, e1, p);
      RunExtend(s, e1, p, e);
    } else {
      assert TokenRun(s, e, e);
    }
  }

  /** Lower-cased character `k` of the literal matched at `i`. */
  lemma LiteralChar(s: string, i: int, lit: string, k: int)
    requires LiteralAt(s, i, lit) && 0 <= k < |lit|
    ensures Lower(s[i + k]) == lit[k]
  {
  }

  /** A character whose lower case is a lower-case letter, `:`, `/` or `.` is a body character. */
  lemma LowerLetterIsBody(c: char)
    requires ('a' <= Lower(c) <= 'z') || Lower(c) in ":/."
    ensures IsBodyChar(c)
  {
  }

  /** Every character of a scheme prefix is a body character. */
  lemma PrefixCharsAreBody(s: string, i: int, len: int)
    requires PrefixAt(s, i, len)
    ensures 0 <= i && i + len <= |s|
    ensures forall k :: i <= k < i + len ==> IsBodyChar(s[k])
  {
    var lit := if LiteralAt(s, i, "http://") && len == 7 then "http://"
               else if LiteralAt(s, i, "https://") && len == 8 then "https://"
               else if LiteralAt(s, i, "file://") && len == 7 then "file://"
               else "www.";
    assert LiteralAt(s, i, lit) && |lit| == len;
    forall k | i <= k < i + len ensures IsBodyChar(s[k]) {
      LiteralChar(s, i, lit, k - i);
      assert i + (k - i) == k;
      LowerLetterIsBody(s[k]);
    }
  }

  /** `s[a..k+1]` is a group, closed by the `)` at `k`. */
  predicate GroupClosesAt(s: string, a: int, k: int) {
    IsGroup(s, a, k + 1)
  }

  /** Every character of `s[i..j]` is a body character or a parenthesis. */
  ghost predicate BodyOrParens(s: string, i: int, j: int) {
    0 <= i <= j <= |s| && forall k :: i <= k < j ==> IsBodyChar(s[k]) || s[k] == '(' || s[k] == ')'
  }

  /** Every `(` in `s[i..j]` opens a group `\(B*\)` that closes by `j`. */
  ghost predicate OpensAreClosed(s: string, i: int, j: int) {
    0 <= i <= j <= |s| && forall k :: i <= k < j && s[k] == '(' ==> exists e :: e <= j && IsGroup(s, k, e)
  }

  /** Every `)` in `s[i..j]` closes a group `\(B*\)` opened at or after `i`. */
  ghost predicate ClosesAreOpened(s: string, i: int, j: int) {
    0 <= i <= j <= |s| && forall k :: i <= k < j && s[k] == ')' ==> exists a :: i <= a && GroupClosesAt(s, a, k)
  }

  /** Parentheses in `s[i..j]` come only as balanced pairs around body characters; as `(` and
      `)` are not body characters, such pairs are never nested. */
  ghost predicate FlatParens(s: string, i: int, j: int) {
    BodyOrParens(s, i, j) && OpensAreClosed(s, i, j) && ClosesAreOpened(s, i, j)
  }

  /** A token run has only body characters and parentheses. */
  lemma {:induction false} RunBodyOrParens(s: string, b: int, m: int)
    requires TokenRun(s, b, m)
    ensures BodyOrParens(s, b, m)
    decreases m - b
  {
    if b < m {
      var e :| b < e <= m && IsToken(s, b, e) && TokenRun(s, e, m);
      RunBodyOrParens(s, e, m);
    }
  }

  /** Every `(` of a token run is closed inside the run. */
  lemma {:induction false} RunOpensAreClosed(s: string, b: int, m: int)
    requires TokenRun(s, b, m)
    ensures OpensAreClosed(s, b, m)
    decreases m - b
  {
    if b < m {
      var e :| b < e <= m && IsToken(s, b, e) && TokenRun(s, e, m);
      RunOpensAreClosed(s, e, m);
      forall k | b <= k < m && s[k] == '(' ensures exists e' :: e' <= m && IsGroup(s, k, e') {
        if k < e {
          if IsGroup(s, b, e) {
            assert k == b;
            assert IsGroup(s, k, e);
          }
        }
      }
    }
  }

  /** Every `)` of a token run was opened inside the run. */
  lemma {:induction false} RunClosesAreOpened(s: string, b: int, m: int)
    requires TokenRun(s, b, m)
    ensures ClosesAreOpened(s, b, m)
    decreases m - b
  {
    if b < m {
      var e :| b < e <= m && IsToken(s, b, e) && TokenRun(s, e, m);
      RunClosesAreOpened(s, e, m);
      forall k | b <= k < m && s[k] == ')' ensures exists a :: b <= a && GroupClosesAt(s, a, k) {
        if k < e {
          if IsGroup(s, b, e) {
            assert k == e - 1;
            assert GroupClosesAt(s, b, k);
          }
        }
      }
    }
  }

  /** Parentheses occur in a match only as balanced, non-nested pairs around body characters. */
  lemma MatchFlatParens(s: string, i: int, j: int)
    requires MatchAt(s, i, j)
    ensures FlatParens(s, i, j)
  {
    var len :| PrefixAt(s, i, len) && Tail(s, i + len, j);
    var m :| i + len <= m < j && TokenRun(s, i + len, m) && IsFinalToken(s, m, j);
    PrefixCharsAreBody(s, i, len);
    PiecesBodyOrParens(s, i, i + len, m, j);
    PiecesOpensAreClosed(s, i, i + len, m, j);
    PiecesClosesAreOpened(s, i, i + len, m, j);
  }

  /** BodyOrParens of prefix, run and final token together. */
  lemma PiecesBodyOrParens(s: string, i: int, b: int, m: int, j: int)
    requires 0 <= i <= b <= |s| && forall k :: i <= k < b ==> IsBodyChar(s[k])
    requires TokenRun(s, b, m) && IsFinalToken(s, m, j)
    ensures BodyOrParens(s, i, j)
  {
    RunBodyOrParens(s, b, m);
  }

  /** OpensAreClosed of prefix, run and final token together. */
  lemma PiecesOpensAreClosed(s: string, i: int, b: int, m: int, j: int)
    requires 0 <= i <= b <= |s| && forall k :: i <= k < b ==> IsBodyChar(s[k])
    requires TokenRun(s, b, m) && IsFinalToken(s, m, j)
    ensures OpensAreClosed(s, i, j)
  {
    RunOpensAreClosed(s, b, m);
    forall k | i <= k < j && s[k] == '(' ensures exists e :: e <= j && IsGroup(s, k, e) {
      if k >= m {
        assert IsGroup(s, k, j);
      } else if k >= b {
        var e :| e <= m && IsGroup(s, k, e);
      }
    }
  }

  /** ClosesAreOpened of prefix, run and final token together. */
  lemma PiecesClosesAreOpened(s: string, i: int, b: int, m: int, j: int)
    requires 0 <= i <= b <= |s| && forall k :: i <= k < b ==> IsBodyChar(s[k])
    requires TokenRun(s, b, m) && IsFinalToken(s, m, j)
    ensures ClosesAreOpened(s, i, j)
  {
    RunClosesAreOpened(s, b, m);
    forall k | i <= k < j && s[k] == ')' ensures exists a :: i <= a && GroupClosesAt(s, a, k) {
      if k >= m {
        assert GroupClosesAt(s, m, k);
      } else if k >= b {
        var a :| b <= a && GroupClosesAt(s, a, k);
      }
    }
  }

  /** At most one pair satisfies IsFirstMatch. */
  lemma FirstMatchUnique(s: string, i: int, j: int, i': int, j': int)
    requires IsFirstMatch(s, i, j) && IsFirstMatch(s, i', j')
    ensures i == i' && j == j'
  {
  }

  /** A character that can be neither part of a token nor of a prefix, nor close a group:
      whitespace, for one. */
  predicate IsSeparator(c: char) {
    !IsBodyChar(c) && c != '(' && c != ')'
  }

  /** `u` is `s` followed by a separator and anything at all. */
  predicate ExtendsPastSeparator(u: string, s: string) {
    |s| < |u| && u[..|s|] == s && IsSeparator(u[|s|])
  }

  /** A token that starts inside `s` ends inside `s`, and is a token of `s` too. */
  lemma TokenLocal(u: string, s: string, a: int, e: int)
    requires ExtendsPastSeparator(u, s) && a <= |s|
    ensures IsToken(u, a, e) ==> e <= |s| && IsToken(s, a, e)
    ensures IsFinalToken(u, a, e) ==> e <= |s| && IsFinalToken(s, a, e)
    ensures e <= |s| ==> (IsToken(s, a, e) ==> IsToken(u, a, e)) && (IsFinalToken(s, a, e) ==> IsFinalToken(u, a, e))
  {
    SameBeforeSeparator(u, s);
  }

  /** `u` and `s` agree on every index of `s`. */
  lemma SameBeforeSeparator(u: string, s: string)
    requires ExtendsPastSeparator(u, s)
    ensures forall k :: 0 <= k < |s| ==> u[k] == s[k]
  {
    forall k | 0 <= k < |s| ensures u[k] == s[k] {
      assert u[..|s|][k] == u[k];
    }
  }

  /** A token run that starts inside `s` stays inside `s`, and is a run of `s` too. */
  lemma {:induction false} RunLocal(u: string, s: string, a: int, m: int)
    requires ExtendsPastSeparator(u, s) && a <= |s|
    ensures TokenRun(u, a, m) ==> m <= |s| && TokenRun(s, a, m)
    ensures TokenRun(s, a, m) ==> TokenRun(u, a, m)
    decreases m - a
  {
    if TokenRun(u, a, m) && a < m {
      var e :| a < e <= m && IsToken(u, a, e) && TokenRun(u, e, m);
      TokenLocal(u, s, a, e);
      RunLocal(u, s, e, m);
    }
    if TokenRun(s, a, m) && a < m {
      var e :| a < e <= m && IsToken(s, a, e) && TokenRun(s, e, m);
      TokenLocal(u, s, a, e);
      RunLocal(u, s, e, m);
    }
  }

  /** A prefix that starts inside `s`, or at the separator, lies inside `s`. */
  lemma PrefixLocal(u: string, s: string, i: int, len: int)
    requires ExtendsPastSeparator(u, s) && i <= |s|
    ensures PrefixAt(u, i, len) <==> PrefixAt(s, i, len)
  {
    SameBeforeSeparator(u, s);
    if PrefixAt(u, i, len) {
      PrefixCharsAreBody(u, i, len);
    }
    if PrefixAt(s, i, len) {
      PrefixCharsAreBody(s, i, len);
    }
  }

  /** Text after a separator does not change which substrings starting in `s` match. */
  lemma MatchLocal(u: string, s: string, i: int, j: int)
    requires ExtendsPastSeparator(u, s) && i <= |s|
    ensures MatchAt(u, i, j) <==> MatchAt(s, i, j)
  {
    if MatchAt(u, i, j) {
      MatchLocalShrink(u, s, i, j);
    }
    if MatchAt(s, i, j) {
      MatchLocalGrow(u, s, i, j);
    }
  }

  /** One direction of MatchLocal. */
  lemma MatchLocalShrink(u: string, s: string, i: int, j: int)
    requires ExtendsPastSeparator(u, s) && i <= |s| && MatchAt(u, i, j)
    ensures MatchAt(s, i, j)
  {
    var len :| PrefixAt(u, i, len) && Tail(u, i + len, j);
    var m :| i + len <= m < j && TokenRun(u, i + len, m) && IsFinalToken(u, m, j);
    PrefixLocal(u, s, i, len);
    RunLocal(u, s, i + len, m);
    TokenLocal(u, s, m, j);
    assert PrefixAt(s, i, len) && Tail(s, i + len, j);
  }

  /** The other direction of MatchLocal. */
  lemma MatchLocalGrow(u: string, s: string, i: int, j: int)
    requires ExtendsPastSeparator(u, s) && i <= |s| && MatchAt(s, i, j)
    ensures MatchAt(u, i, j)
  {
    var len :| PrefixAt(s, i, len) && Tail(s, i + len, j);
    var m :| i + len <= m < j && TokenRun(s, i + len, m) && IsFinalToken(s, m, j);
    PrefixLocal(u, s, i, len);
    RunLocal(u, s, i + len, m);
    TokenLocal(u, s, m, j);
    assert PrefixAt(u, i, len) && Tail(u, i + len, j);
  }

  /** Once `s` has a match, nothing placed after a separator that follows `s` changes the first
      match: a later URL in the same comment never influences the result. */
  lemma FirstMatchIgnoresLaterText(u: string, s: string, i: int, j: int)
    requires ExtendsPastSeparator(u, s) && IsFirstMatch(s, i, j)
    ensures IsFirstMatch(u, i, j)
  {
    MatchAtBounds(s, i, j);
    MatchLocal(u, s, i, j);
    forall i', j' | i' < i ensures !MatchAt(u, i', j') {
      MatchLocal(u, s, i', j');
    }
    forall j' | MatchAt(u, i, j') ensures j' <= j {
      MatchLocal(u, s, i, j');
    }
  }

  /** A match starts and ends inside the text. */
  lemma MatchAtBounds(s: string, i: int, j: int)
    requires MatchAt(s, i, j)
    ensures 0 <= i < j <= |s|
  {
    var len :| PrefixAt(s, i, len) && Tail(s, i + len, j);
    var m :| i + len <= m < j && TokenRun(s, i + len, m) && IsFinalToken(s, m, j);
  }
}
