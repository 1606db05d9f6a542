/**
 * An explicit scanner that computes what `exec` returns for the URL pattern of
 * `parseCommentForUrl` on a fresh regular-expression literal (so the search starts at index 0),
 * proved equal to the leftmost, longest match of the language in UrlGrammar.
 *
 * Why "longest": every body token starts with a body character or `(`, and `(` is not a body
 * character, so from any index there is at most one way to read the next token
 * (UrlGrammar.TokenDeterministic). The greedy star therefore first tries the maximal run of
 * tokens and backs off one token at a time until the next token is a final token; the first
 * success is the longest match at that start.
 */
module UrlScanner {
  import opened Wrappers
  import opened UrlGrammar

  /** Length of the scheme prefix at `i`, or 0 when none of the four alternatives matches. */
  function PrefixLen(s: string, i: nat): (len: nat)
    ensures len > 0 ==> i + len <= |s|
    ensures forall n :: PrefixAt(s, i, n) <==> len > 0 && n == len
  {
    PrefixLiteralsExclusive(s, i);
    if LiteralAt(s, i, "https://") then 8
    else if LiteralAt(s, i, "http://") then 7
    else if LiteralAt(s, i, "file://") then 7
    else if LiteralAt(s, i, "www.") then 4
    else 0
  }

  /** At most one of the four prefix literals occurs at any index. */
  lemma PrefixLiteralsExclusive(s: string, i: int)
    ensures LiteralAt(s, i, "https://") ==> !LiteralAt(s, i, "http://")
    ensures !(LiteralAt(s, i, "https://") && LiteralAt(s, i, "file://"))
    ensures !(LiteralAt(s, i, "https://") && LiteralAt(s, i, "www."))
    ensures !(LiteralAt(s, i, "http://") && LiteralAt(s, i, "file://"))
    ensures !(LiteralAt(s, i, "http://") && LiteralAt(s, i, "www."))
    ensures !(LiteralAt(s, i, "file://") && LiteralAt(s, i, "www."))
  {
    if LiteralAt(s, i, "https://") && LiteralAt(s, i, "http://") {
      LiteralChar(s, i, "https://", 4);
      LiteralChar(s, i, "http://", 4);
    }
    if LiteralAt(s, i, "https://") || LiteralAt(s, i, "http://") {
      LiteralChar(s, i, if LiteralAt(s, i, "http://") then "http://" else "https://", 0);
    }
    if LiteralAt(s, i, "file://") {
      LiteralChar(s, i, "file://", 0);
    }
    if LiteralAt(s, i, "www.") {
      LiteralChar(s, i, "www.", 0);
    }
  }

  /** End of the maximal run of body characters starting at `q`. */
  function BodyRunEnd(s: string, q: nat): (r: nat)
    requires q <= |s|
    ensures q <= r <= |s|
    ensures forall k :: q <= k < r ==> IsBodyChar(s[k])
    ensures r < |s| ==> !IsBodyChar(s[r])
    decreases |s| - q
  {
    if q < |s| && IsBodyChar(s[q]) then BodyRunEnd(s, q + 1) else q
  }

  /** End of the body token that starts at `p`, if one does. */
  function TokenEnd(s: string, p: nat): (r: Option<nat>)
    requires p <= |s|
    ensures r.Some? ==> p < r.value <= |s| && IsToken(s, p, r.value)
    ensures forall e :: IsToken(s, p, e) ==> r == Some(e)
  {
    if p == |s| then None
    else if s[p] == '(' then
      var q := BodyRunEnd(s, p + 1);
      if q < |s| && s[q] == ')' then Some(q + 1) else None
    else if IsBodyChar(s[p]) then Some(p + 1)
    else None
  }

  /** Reads the tokens from `p` on and returns the end of the last final token read, or `last`
      when no further final token follows: the greedy star backing off to a final token. */
  function ScanRun(s: string, p: nat, last: Option<nat>): Option<nat>
    requires p <= |s|
    decreases |s| - p
  {
    match TokenEnd(s, p)
    case None => last
    case Some(e) => ScanRun(s, e, if s[p] == '(' || IsFinalChar(s[p]) then Some(e) else last)
  }

  /** End of the longest match that starts at `i`, if any. */
  function MatchEndAt(s: string, i: nat): Option<nat> {
    var len := PrefixLen(s, i);
    if len == 0 then None else ScanRun(s, i + len, None)
  }

  /** The first match at or after `i`. */
  function FirstMatchFrom(s: string, i: nat): Option<(nat, nat)>
    requires i <= |s|
    decreases |s| - i
  {
    if i == |s| then None
    else match MatchEndAt(s, i)
      case Some(j) => Some((i, j))
      case None => FirstMatchFrom(s, i + 1)
  }

  /** `exec` of the URL pattern from index 0: the leftmost start, and the longest match there.
      `None` exactly when no substring matches the pattern. A match never ends with one of
      `- ? ! : , .`: it ends with `)` or a final-class character. */
  function FirstMatch(s: string): (r: Option<(nat, nat)>)
    ensures r.Some? ==> r.value.0 < r.value.1 <= |s| && IsFirstMatch(s, r.value.0, r.value.1)
    ensures r.None? <==> forall i, j :: !MatchAt(s, i, j)
    ensures r.Some? ==> s[r.value.1 - 1] == ')' || IsFinalChar(s[r.value.1 - 1])
    ensures r.Some? ==> s[r.value.1 - 1] !in "-?!:,."
  {
    FirstMatchFromCorrect(s, 0);
    var r := FirstMatchFrom(s, 0);
    if r.Some? then
      MatchBounds(s, r.value.0, r.value.1);
      FinalCharNotTrailing(s[r.value.1 - 1]);
      r
    else r
  }

  /** The first match of the pattern, stated declaratively, is what FirstMatch returns. */
  lemma FirstMatchIs(s: string, i: int, j: int)
    requires IsFirstMatch(s, i, j)
    ensures FirstMatch(s) == Some((i, j))
  {
    var r := FirstMatch(s);
    FirstMatchUnique(s, i, j, r.value.0, r.value.1);
  }

  /** None of the six characters the pattern drops at the end is `)` or a final character. */
  lemma FinalCharNotTrailing(c: char)
    requires c == ')' || IsFinalChar(c)
    ensures c !in "-?!:,."
  {
  }

  /** Every match lies inside `s` and ends in a final token. */
  lemma MatchBounds(s: string, i: int, j: int)
    requires MatchAt(s, i, j)
    ensures 0 <= i < j <= |s|
    ensures s[j - 1] == ')' || IsFinalChar(s[j - 1])
  {
    var len :| PrefixAt(s, i, len) && Tail(s, i + len, j);
    var m :| i + len <= m < j && TokenRun(s, i + len, m) && IsFinalToken(s, m, j);
    PrefixCharsAreBody(s, i, len);
    FinalTokenIsToken(s, m, j);
  }

  /** The scan from a token boundary `p` of the run from `b` returns the longest tail from `b`,
      given that `last` is the longest tail ending at or before `p`. */
  lemma {:induction false} ScanRunCorrect(s: string, b: nat, p: nat, last: Option<nat>)
    requires b <= p <= |s| && TokenRun(s, b, p)
    requires last.Some? ==> last.value <= p && Tail(s, b, last.value)
    requires forall e :: e <= p && Tail(s, b, e) ==> last.Some? && e <= last.value
    ensures var r := ScanRun(s, p, last);
            && (r.Some? ==> Tail(s, b, r.value) && forall e :: Tail(s, b, e) ==> e <= r.value)
            && (r.None? ==> forall e :: !Tail(s, b, e))
    decreases |s| - p
  {
    match TokenEnd(s, p)
    case None =>
      forall e | Tail(s, b, e) ensures e <= p {
        var m :| b <= m < e && TokenRun(s, b, m) && IsFinalToken(s, m, e);
        FinalTokenIsToken(s, m, e);
        if m >= p {
          RunChain(s, b, p, m);
        } else {
          TokenInsideRun(s, b, p, m, e);
        }
      }
    case Some(e1) =>
      var final := s[p] == '(' || IsFinalChar(s[p]);
      var last' := if final then Some(e1) else last;
      RunExtend(s, b, p, e1);
      if final {
        assert IsFinalToken(s, p, e1);
      }
      forall e | e <= e1 && Tail(s, b, e) ensures last'.Some? && e <= last'.value {
        if e > p {
          var m :| b <= m < e && TokenRun(s, b, m) && IsFinalToken(s, m, e);
          FinalTokenIsToken(s, m, e);
          if m < p {
            TokenInsideRun(s, b, p, m, e);
          } else if m > p {
            RunChain(s, b, p, m);
          } else {
            TokenDeterministic(s, p, e1, e);
          }
        }
      }
      ScanRunCorrect(s, b, e1, last');
  }

  /** MatchEndAt returns the end of the longest match at `i`, and `None` when nothing matches there. */
  lemma MatchEndAtCorrect(s: string, i: nat)
    ensures var r := MatchEndAt(s, i);
            && (r.Some? ==> MatchAt(s, i, r.value) && forall j :: MatchAt(s, i, j) ==> j <= r.value)
            && (r.None? ==> forall j :: !MatchAt(s, i, j))
  {
    var len := PrefixLen(s, i);
    if len == 0 {
      assert forall n :: !PrefixAt(s, i, n);
    } else {
      var b := i + len;
      assert TokenRun(s, b, b);
      ScanRunCorrect(s, b, b, None);
      var r := ScanRun(s, b, None);
      forall j | MatchAt(s, i, j) ensures Tail(s, b, j) {
        var n :| PrefixAt(s, i, n) && Tail(s, i + n, j);
      }
      if r.Some? {
        assert PrefixAt(s, i, len) && Tail(s, b, r.value);
      }
    }
  }

  /** FirstMatchFrom returns the match with the least start at or after `i`, longest there. */
  lemma {:induction false} FirstMatchFromCorrect(s: string, i: nat)
    requires i <= |s|
    ensures var r := FirstMatchFrom(s, i);
            && (r.Some? ==> && i <= r.value.0 && MatchAt(s, r.value.0, r.value.1)
                            && (forall i', j' :: i <= i' < r.value.0 ==> !MatchAt(s, i', j'))
                            && (forall j' :: MatchAt(s, r.value.0, j') ==> j' <= r.value.1))
            && (r.None? ==> forall i', j' :: i <= i' ==> !MatchAt(s, i', j'))
    decreases |s| - i
  {
    if i == |s| {
      forall i', j' | i <= i' ensures !MatchAt(s, i', j') {
        NoMatchPastEnd(s, i', j');
      }
    } else {
      MatchEndAtCorrect(s, i);
      if MatchEndAt(s, i).None? {
        FirstMatchFromCorrect(s, i + 1);
        var r := FirstMatchFrom(s, i + 1);
        forall i', j' | i <= i' && (r.Some? ==> i' < r.value.0) ensures !MatchAt(s, i', j') {
          if i' > i {
            assert i + 1 <= i';
          }
        }
      }
    }
  }

  /** No match starts at or past the end of `s`. */
  lemma NoMatchPastEnd(s: string, i: int, j: int)
    requires i >= |s|
    ensures !MatchAt(s, i, j)
  {
    if MatchAt(s, i, j) {
      MatchBounds(s, i, j);
    }
  }
}
