# issue-url-scraper, modelled in Dafny

`lighthouse-core/scripts/issue-url-scraper.js` lists the URLs mentioned in the body and
comments of a GitHub issue and of every issue that cross-references it. Around its GraphQL
I/O sit three pieces of deterministic logic, and this project models and proves all three:

- **`parseCommentForUrl`** (modules `UrlGrammar`, `UrlScanner`, `UrlExtractor`).
  - The URL regular expression is stated twice:
    - declaratively, as a language: a prefix, a run of body tokens, then a final token (`MatchAt`, `IsFirstMatch`);
    - as an executable left-to-right scanner, `FirstMatch`.
  - The scanner is proved to return what `exec` returns: the leftmost match, and at that start the longest one.
    - Neither `(` nor `)` is a body character, so the tokens never overlap ambiguously.
    - This makes the backtracking order of the greedy star coincide with "longest".
  - The URL parser is a parameter, `parseUrl`.
  - The href filter is the literal pattern `localhost|github.com`: case-sensitive, anywhere in the href, with `.` matching any one character except a line terminator.
- **The scan list of `main`**: the filter and map over the root issue's timeline nodes, then the `unshift` of the root number (module `Scraper`).
- **The URL loop of `main`**: the nested loops over issues and over each issue's `[body, ...comments]`, adding every URL found to an insertion-ordered `Set`.
  - It is the method `Scraper.Scrape`, and its inner loop is `Scraper.AddIssueUrls`.
  - Both are proved against the specification function `ScrapeResult`.
  - The `Set` is a duplicate-free `seq<string>` grown by appending.

The two GraphQL queries are inputs:
- `timeline` is the list of timeline nodes of the root issue.
- `fetched` maps an issue number to its body and comment bodies.
- A number that is absent from `fetched` stands for a query that throws. The run then ends with `Failure(number)` for the first such issue in scan order.

Two behaviours of the code are easy to misread, and the model keeps them as written:
- **The href filter** tests the whole href, not only the host. It is case-sensitive, and its `.` is a wildcard (`UrlExtractor.WildcardExcluded`, `UrlExtractor.UpperCaseNotExcluded`).
- **`www.` matches** are passed to `new URL` with no base. No scheme is added, and what the parser does with them is left to `parseUrl`.

## Model

| member | source | states |
|---|---|---|
| UrlScanner.FirstMatch | lighthouse-core/scripts/issue-url-scraper.js:46-47 | `Some((i, j))` is the match `exec` returns: a match of the pattern at `i`, none at any earlier start, and none longer at `i`. `None` exactly when the pattern matches nowhere. The match ends in `)` or a final character, never in one of `- ? ! : , .` |
| UrlScanner.FirstMatchIs | lighthouse-core/scripts/issue-url-scraper.js:46 | any first match, stated declaratively, is the scanner's result |
| UrlScanner.PrefixLen | lighthouse-core/scripts/issue-url-scraper.js:46 | the length of the scheme prefix (`http://`, `https://`, `file://`, `www.`, ASCII case-insensitive) at `i`. It is the only length at which the alternation matches there, and 0 when it does not match |
| UrlScanner.PrefixLiteralsExclusive | lighthouse-core/scripts/issue-url-scraper.js:46 | no two of the four prefix literals occur at the same index |
| UrlScanner.BodyRunEnd | lighthouse-core/scripts/issue-url-scraper.js:46 | the end of the maximal run of body-class characters from `q` |
| UrlScanner.TokenEnd | lighthouse-core/scripts/issue-url-scraper.js:46 | the end of the body token (a body character or a flat group `(B*)`) starting at `p`. It is the only token there, and `None` when no token starts there |
| UrlScanner.ScanRunCorrect | lighthouse-core/scripts/issue-url-scraper.js:46 | reading tokens greedily and remembering the last final token yields the longest tail (token run plus final token) from the end of the prefix, and `None` when there is no tail |
| UrlScanner.MatchEndAtCorrect | lighthouse-core/scripts/issue-url-scraper.js:46 | the scan at one start returns the longest match there, and `None` exactly when nothing matches there |
| UrlScanner.FirstMatchFromCorrect | lighthouse-core/scripts/issue-url-scraper.js:46-47 | trying starts left to right returns the leftmost start that has a match, with the longest match there, and `None` when no start from `i` on has one |
| UrlScanner.MatchBounds | lighthouse-core/scripts/issue-url-scraper.js:46 | a match lies inside the text and its last character is `)` or a final character |
| UrlScanner.FinalCharNotTrailing | lighthouse-core/scripts/issue-url-scraper.js:46 | neither `)` nor a final character is one of `- ? ! : , .` |
| UrlGrammar.MatchFlatParens | lighthouse-core/scripts/issue-url-scraper.js:46 | inside a match every character is a body character or a parenthesis. Every `(` opens a group of body characters closed within the match, and every `)` closes one opened within the match: pairs are balanced and never nested |
| UrlGrammar.FirstMatchUnique | lighthouse-core/scripts/issue-url-scraper.js:46 | a text has at most one first match |
| UrlGrammar.FirstMatchIgnoresLaterText | lighthouse-core/scripts/issue-url-scraper.js:46 | appending a separator and any text after a text that has a match leaves its first match unchanged |
| UrlGrammar.MatchAtBounds | lighthouse-core/scripts/issue-url-scraper.js:46 | a match is a non-empty slice of the text |
| UrlGrammar.RunChain | lighthouse-core/scripts/issue-url-scraper.js:46 | of two token runs from the same start, the longer continues the shorter: tokenisation is unambiguous |
| UrlExtractor.ParseCommentForUrl | lighthouse-core/scripts/issue-url-scraper.js:43-60 | `parseCommentForUrl`: the first match of the pattern, given to the URL parser, with the href returned unless the filter matches it, and `null` on no match or on a parser failure. It has no contract of its own; its results are stated by `ParseCommentForUrlSpec`, `ParseCommentOfFirstMatch` and `LaterUrlIgnored` (weaker on its own, see Left out) |
| UrlExtractor.IsExcludedHref | lighthouse-core/scripts/issue-url-scraper.js:52 | the href test: `localhost`, or `github`, any one character but a line terminator, then `com`, at any index, case-sensitively. Its behaviour is shown by `LocalhostExcluded`, `GithubExcluded`, `WildcardExcluded` and `UpperCaseNotExcluded` |
| UrlExtractor.ParseCommentForUrlSpec | lighthouse-core/scripts/issue-url-scraper.js:43-54 | a comment in which the pattern matches nowhere gives `null`, and a returned href never matches the filter |
| UrlExtractor.ParseCommentOfFirstMatch | lighthouse-core/scripts/issue-url-scraper.js:49-59 | given the first match, a parser failure gives `null`. Otherwise the result is `null` when the href matches the filter and exactly the parsed href when it does not |
| UrlExtractor.SameFirstMatchSameResult | lighthouse-core/scripts/issue-url-scraper.js:46-56 | the result depends on the comment only through the text of its first match |
| UrlExtractor.LaterUrlIgnored | lighthouse-core/scripts/issue-url-scraper.js:46-50 | once a comment has a match, text after a following separator never changes the result: a second URL is ignored |
| UrlExtractor.LocalhostExcluded | lighthouse-core/scripts/issue-url-scraper.js:52-53 | an href containing `localhost` is dropped |
| UrlExtractor.GithubExcluded | lighthouse-core/scripts/issue-url-scraper.js:52-53 | a `github.com` href is dropped |
| UrlExtractor.WildcardExcluded | lighthouse-core/scripts/issue-url-scraper.js:52-53 | `github-com` in the query of another host is dropped too: the `.` is a wildcard and the whole href is tested |
| UrlExtractor.UpperCaseNotExcluded | lighthouse-core/scripts/issue-url-scraper.js:52-56 | `GitHub.com` passes the filter: it is case-sensitive |
| Scraper.IsIssueReference | lighthouse-core/scripts/issue-url-scraper.js:111 | `node.source && node.source.number` is truthy: a source is present and its number is present and non-zero |
| Scraper.ReferencedIssues | lighthouse-core/scripts/issue-url-scraper.js:109-114 | the filter-and-map chain over the timeline. Its own contract is weaker, bounding only the length; membership, order and multiplicity are stated by `ReferencedIssuesMembers`, `ReferencedIssuesAppend` and `ReferencedIssuesSingle` |
| Scraper.ReferencedIssuesMembers | lighthouse-core/scripts/issue-url-scraper.js:109-114 | the filtered list holds exactly the sources of nodes whose `source.number` is truthy |
| Scraper.ReferencedIssuesAppend | lighthouse-core/scripts/issue-url-scraper.js:109-114 | filtering distributes over concatenation of timelines, so timeline order is kept and nothing is merged |
| Scraper.ReferencedIssuesSingle | lighthouse-core/scripts/issue-url-scraper.js:111-114 | one node contributes its source exactly when its `source.number` is truthy |
| Scraper.ScanList | lighthouse-core/scripts/issue-url-scraper.js:109-115 | the filtered sources with the root number prepended by `unshift`. Its shape is stated by `ScanListShape`, `ScanListWithoutReferences` and `ReferencedTwiceScannedTwice` |
| Scraper.ScanListShape | lighthouse-core/scripts/issue-url-scraper.js:109-118 | the scan list has one entry more than the filtered timeline. The root issue comes first, and the other entries are exactly the sources of the issue references |
| Scraper.ScanListWithoutReferences | lighthouse-core/scripts/issue-url-scraper.js:109-115 | without issue references only the root issue is scanned |
| Scraper.NoReferencesNoIssues | lighthouse-core/scripts/issue-url-scraper.js:109-114 | a timeline without issue references filters to nothing |
| Scraper.ReferencedTwiceScannedTwice | lighthouse-core/scripts/issue-url-scraper.js:109-115 | an issue referenced twice is on the scan list twice |
| Scraper.CommentsForIssue | lighthouse-core/scripts/issue-url-scraper.js:81-84 | `[first, ...rest]`: the issue body, then the comment bodies in order. Its place in the loop order is stated by `ScannedCommentsStep` |
| Scraper.ExtractionsComplete | lighthouse-core/scripts/issue-url-scraper.js:122-125 | the URLs collected are exactly the truthy extractor results over the texts |
| Scraper.ExtractedUrlsNotExcluded | lighthouse-core/scripts/issue-url-scraper.js:124-125 | every collected URL is a non-empty href that passed the filter |
| Scraper.Dedup | lighthouse-core/scripts/issue-url-scraper.js:120-125 | the contents of a `Set` fed the values in order. `DedupIsInsertionOrderedSet` proves no duplicates, the same members and first-insertion order |
| Scraper.FirstIndex | lighthouse-core/scripts/issue-url-scraper.js:120-125 | the first position of a value in the sequence of additions, the key of the `Set`'s insertion order |
| Scraper.DedupIsInsertionOrderedSet | lighthouse-core/scripts/issue-url-scraper.js:120-125 | what a `Set` fed with a sequence holds: no duplicates, exactly the values fed, in first-insertion order |
| Scraper.FirstIndexInPrefix | lighthouse-core/scripts/issue-url-scraper.js:120-125 | later additions never change where a value was first added |
| Scraper.FirstUnfetched | lighthouse-core/scripts/issue-url-scraper.js:122-123 | the first issue, in scan order, whose query fails. `None` exactly when every query succeeds |
| Scraper.FirstUnfetchedAt | lighthouse-core/scripts/issue-url-scraper.js:122-123 | the loop's first failing query is the one `FirstUnfetched` reports |
| Scraper.ScrapeResult | lighthouse-core/scripts/issue-url-scraper.js:120-127 | what the loop of `main` produces for a scan list: the failure of the first missing query, or the `Set` of the truthy extractions over every issue's body and comments. `ScrapeResultIsUrlSet` states what that set holds, and `Scrape` is proved equal to it |
| Scraper.ScrapeResultIsUrlSet | lighthouse-core/scripts/issue-url-scraper.js:120-127 | when every query succeeds, `urls` has no duplicates. Its elements are exactly the truthy extractions over every body-then-comments list of every issue on the scan list, in first-insertion order |
| Scraper.ScannedCommentsStep | lighthouse-core/scripts/issue-url-scraper.js:81-84 | the texts of one more issue are its body followed by its comments, after those of the issues before it |
| Scraper.DedupExtractionsStep | lighthouse-core/scripts/issue-url-scraper.js:124-125 | one more text adds its URL to the set exactly when the URL is truthy and new |
| Scraper.AddUrlStep | lighthouse-core/scripts/issue-url-scraper.js:124-125 | one step of the inner loop keeps `urls` equal to the set of the texts seen so far |
| Scraper.AddIssueUrls | lighthouse-core/scripts/issue-url-scraper.js:123-126 | the inner loop over one issue's texts leaves `urls` equal to the set of all texts seen so far |
| Scraper.Scrape | lighthouse-core/scripts/issue-url-scraper.js:109-127 | `main` builds the scan list with `unshift` and runs both loops. The result is the specification `ScrapeResult` of that list, which is the set characterised by `ScrapeResultIsUrlSet`, or the first failing query |

## Left out

- The GraphQL client, the network, the auth token and the reading of `argv` and the environment (lines 20-38, 67-79, 88-107) are not modelled. Their results are the inputs `root`, `timeline` and `fetched`.
- `new URL` (the WHATWG URL Standard's basic URL parser, with no base) is a foreign library. It is the uninterpreted parameter `parseUrl`, with `None` where it throws.
- The console output (lines 117-118, 129-131) is not modelled: the title, the issue count and the URLs. The URLs are printed in the order of the returned sequence, which is the `Set`'s insertion order. The count is the length of the scan list (`Scraper.ScanListShape`).
- `async`/`await` is modelled as plain sequential execution.
- Unmodelled code with no effect on behaviour:
  - the unused `owner` and `repo` variables (lines 32-33);
  - the redundant `.filter(Boolean)` (line 112).
- Case-insensitivity is ASCII only. Without the `u` flag, JavaScript's case canonicalisation never maps a character above 127 onto an ASCII letter.
- Characters are Unicode scalar values rather than UTF-16 code units. The match bounds are then counted in different units, but the matched text is the same, because every character the pattern can match is ASCII.
- UrlExtractor.IsExcludedHref: the filter's `.` matches one Unicode scalar value here, while the JavaScript `.` without the `u` flag matches one UTF-16 code unit. So `github`, a character outside the Basic Multilingual Plane, then `com` is excluded here but not by the source. A real parsed href is ASCII (percent-encoded, with a punycode host), but `parseUrl` is not constrained to that.
- The root number is a string from `argv` in the source and an `int` here.
- A timeline node's `source.number` is modelled as an optional integer. "Truthy" means present and non-zero; `NaN` cannot come from the API.
- Scraper.ReferencedIssues: weaker, as its own contract only bounds its length. Its membership, order and multiplicity are stated by `ReferencedIssuesMembers`, `ReferencedIssuesAppend` and `ReferencedIssuesSingle`.
- UrlExtractor.ParseCommentForUrl: weaker, as it carries no contract of its own. What it returns is stated by `ParseCommentForUrlSpec`, `ParseCommentOfFirstMatch` and `LaterUrlIgnored`.
