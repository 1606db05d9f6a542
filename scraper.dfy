/**
 * `main` and `getCommentsForIssue`: build the list of issues to scan from the root issue's
 * timeline, then collect, in first-insertion order and without duplicates, the URL that
 * `parseCommentForUrl` finds in the body and in every comment of every issue on that list.
 *
 * The two GraphQL queries are inputs here: `timeline` is what the root issue's
 * `timelineItems(first: 250)` returned, and `fetched` maps an issue number to what its
 * body-and-comments query returned. A number missing from `fetched` is a query that throws.
 */
module Scraper {
  import opened Wrappers
  import opened UrlExtractor

  /** The `source` object of a timeline node: `{number, title}` for a cross-reference from an
      issue, `{}` for one from a pull request. */
  datatype Source = Source(number: Option<int>, title: Option<string>)

  /** A timeline node: only a `CrossReferencedEvent` has a `source`; other events are `{}`. */
  datatype TimelineNode = TimelineNode(source: Option<Source>)

  /** An entry of the scan list. The root entry has no title. */
  datatype IssueRef = IssueRef(number: int, title: Option<string>)

  /** What the body-and-comments query returned for one issue. */
  datatype IssueData = IssueData(body: string, comments: seq<string>)

  /** `node.source && node.source.number` is truthy: a source with a non-zero number. */
  predicate IsIssueReference(node: TimelineNode) {
    node.source.Some? && node.source.value.number.Some? && node.source.value.number.value != 0
  }

  /** The kept node mapped to its `source`. */
  function SourceOf(node: TimelineNode): IssueRef
    requires IsIssueReference(node)
  {
    IssueRef(node.source.value.number.value, node.source.value.title)
  }

  /** The `filter`/`map` chain over the timeline: the sources of the issue references, in
      timeline order, duplicates kept. */
  function ReferencedIssues(nodes: seq<TimelineNode>): (r: seq<IssueRef>)
    ensures |r| <= |nodes|
  {
    if nodes == [] then []
    else (if IsIssueReference(nodes[0]) then [SourceOf(nodes[0])] else []) + ReferencedIssues(nodes[1..])
  }

  /** The referenced issues are the sources of the issue references and nothing else. */
  lemma {:induction false} ReferencedIssuesMembers(nodes: seq<TimelineNode>)
    ensures forall x :: x in ReferencedIssues(nodes) <==>
              exists k :: 0 <= k < |nodes| && IsIssueReference(nodes[k]) && SourceOf(nodes[k]) == x
  {
    if nodes != [] {
      ReferencedIssuesMembers(nodes[1..]);
      assert forall k :: 1 <= k < |nodes| ==> nodes[k] == nodes[1..][k - 1];
      assert forall k :: 0 <= k < |nodes| - 1 ==> nodes[1..][k] == nodes[k + 1];
    }
  }

  /** The filter-and-map distributes over concatenation: order is kept and nothing is merged. */
  lemma {:induction false} ReferencedIssuesAppend(a: seq<TimelineNode>, b: seq<TimelineNode>)
    ensures ReferencedIssues(a + b) == ReferencedIssues(a) + ReferencedIssues(b)
  {
    if a == [] {
      assert a + b == b;
    } else {
      var head := if IsIssueReference(a[0]) then [SourceOf(a[0])] else [];
      assert (a + b)[0] == a[0];
      assert (a + b)[1..] == a[1..] + b;
      ReferencedIssuesAppend(a[1..], b);
      calc {
        ReferencedIssues(a + b);
        head + ReferencedIssues(a[1..] + b);
        head + (ReferencedIssues(a[1..]) + ReferencedIssues(b));
        (head + ReferencedIssues(a[1..])) + ReferencedIssues(b);
        ReferencedIssues(a) + ReferencedIssues(b);
      }
    }
  }

  /** One node contributes its source exactly when it is an issue reference. */
  lemma ReferencedIssuesSingle(node: TimelineNode)
    ensures ReferencedIssues([node]) == if IsIssueReference(node) then [SourceOf(node)] else []
  {
    assert [node][1..] == [];
  }

  /** The scan list: the root number first (the `unshift`), then the referenced issues. */
  function ScanList(root: int, nodes: seq<TimelineNode>): seq<IssueRef> {
    [IssueRef(root, None)] + ReferencedIssues(nodes)
  }

  /** The scan list holds the root issue first, then exactly the sources of the issue
      references: one entry per reference. */
  lemma ScanListShape(root: int, nodes: seq<TimelineNode>)
    ensures |ScanList(root, nodes)| == 1 + |ReferencedIssues(nodes)|
    ensures ScanList(root, nodes)[0] == IssueRef(root, None)
    ensures forall x :: x in ScanList(root, nodes)[1..] <==>
              exists k :: 0 <= k < |nodes| && IsIssueReference(nodes[k]) && SourceOf(nodes[k]) == x
  {
    ReferencedIssuesMembers(nodes);
    assert ScanList(root, nodes)[1..] == ReferencedIssues(nodes);
  }

  /** With no issue references on the timeline only the root issue is scanned. */
  lemma ScanListWithoutReferences(root: int, nodes: seq<TimelineNode>)
    requires forall k :: 0 <= k < |nodes| ==> !IsIssueReference(nodes[k])
    ensures ScanList(root, nodes) == [IssueRef(root, None)]
  {
    NoReferencesNoIssues(nodes);
  }

  /** A timeline without issue references yields no referenced issues. */
  lemma {:induction false} NoReferencesNoIssues(nodes: seq<TimelineNode>)
    requires forall k :: 0 <= k < |nodes| ==> !IsIssueReference(nodes[k])
    ensures ReferencedIssues(nodes) == []
  {
    if nodes != [] {
      assert !IsIssueReference(nodes[0]);
      assert forall k :: 0 <= k < |nodes| - 1 ==> nodes[1..][k] == nodes[k + 1];
      NoReferencesNoIssues(nodes[1..]);
    }
  }

  /** An issue referenced twice on the timeline is scanned twice. */
  lemma ReferencedTwiceScannedTwice(root: int, node: TimelineNode)
    requires IsIssueReference(node)
    ensures ScanList(root, [node, node]) == [IssueRef(root, None), SourceOf(node), SourceOf(node)]
  {
    ReferencedIssuesAppend([node], [node]);
    ReferencedIssuesSingle(node);
    assert [node] + [node] == [node, node];
  }

  /** `[first, ...rest]` of `getCommentsForIssue`: the body, then the comment bodies. */
  function CommentsForIssue(d: IssueData): seq<string> {
    [d.body] + d.comments
  }

  /** Every issue on the list has a query result. */
  predicate AllFetched(issues: seq<IssueRef>, fetched: map<int, IssueData>) {
    forall k :: 0 <= k < |issues| ==> issues[k].number in fetched
  }

  /** The texts scanned, in loop order: each issue's body and comments, issue after issue. */
  function ScannedComments(issues: seq<IssueRef>, fetched: map<int, IssueData>): seq<string>
    requires AllFetched(issues, fetched)
  {
    if issues == [] then []
    else
      ScannedComments(issues[..|issues| - 1], fetched)
        + CommentsForIssue(fetched[issues[|issues| - 1].number])
  }

  /** `if (url)`: a non-null, non-empty result of the extractor. */
  predicate IsUrl(r: Option<string>) {
    r.Some? && r.value != ""
  }

  /** The URLs `extract` returns for `texts`, in order, repeats kept. */
  function Extractions(texts: seq<string>, extract: string -> Option<string>): seq<string> {
    if texts == [] then []
    else
      var r := extract(texts[|texts| - 1]);
      Extractions(texts[..|texts| - 1], extract) + (if IsUrl(r) then [r.value] else [])
  }

  /** The extractions are exactly the non-empty results of `extract` over the texts. */
  lemma {:induction false} ExtractionsComplete(texts: seq<string>, extract: string -> Option<string>)
    ensures forall x :: x in Extractions(texts, extract) <==>
              exists k :: 0 <= k < |texts| && IsUrl(extract(texts[k])) && extract(texts[k]).value == x
  {
    if texts != [] {
      var n := |texts| - 1;
      var init := texts[..n];
      ExtractionsComplete(init, extract);
      assert forall k :: 0 <= k < n ==> init[k] == texts[k];
    }
  }

  /** The comment parser, as the extractor the specification functions take. */
  function Extractor(parseUrl: string -> Option<string>): string -> Option<string> {
    c => ParseCommentForUrl(c, parseUrl)
  }

  /** Every URL `parseCommentForUrl` contributes is a non-empty href the filter let through. */
  lemma ExtractedUrlsNotExcluded(texts: seq<string>, parseUrl: string -> Option<string>)
    ensures forall x :: x in Extractions(texts, Extractor(parseUrl)) ==> x != "" && !IsExcludedHref(x)
  {
    var extract := Extractor(parseUrl);
    ExtractionsComplete(texts, extract);
    forall x | x in Extractions(texts, extract) ensures x != "" && !IsExcludedHref(x) {
      var k :| 0 <= k < |texts| && IsUrl(extract(texts[k])) && extract(texts[k]).value == x;
      ParseCommentForUrlSpec(texts[k], parseUrl);
    }
  }

  /** No element occurs twice. */
  predicate NoDuplicates(xs: seq<string>) {
    forall a, b :: 0 <= a < b < |xs| ==> xs[a] != xs[b]
  }

  /** Index of the first occurrence of `x` in `xs`. */
  function FirstIndex(xs: seq<string>, x: string): (p: nat)
    requires x in xs
    ensures p < |xs| && xs[p] == x && x !in xs[..p]
  {
    if xs[0] == x then 0
    else
      var p := 1 + FirstIndex(xs[1..], x);
      assert xs[..p] == [xs[0]] + xs[1..][..p - 1];
      p
  }

  /** The insertion-ordered `Set` fed with `xs`: `add` appends only what is not yet present. */
  function Dedup(xs: seq<string>): seq<string> {
    if xs == [] then []
    else
      var d := Dedup(xs[..|xs| - 1]);
      if xs[|xs| - 1] in d then d else d + [xs[|xs| - 1]]
  }

  /** Two first occurrences of one value are the same index. */
  lemma FirstOccurrenceUnique(xs: seq<string>, x: string, p: int, q: int)
    requires 0 <= p < |xs| && 0 <= q < |xs| && xs[p] == x && xs[q] == x
    requires x !in xs[..p] && x !in xs[..q]
    ensures p == q
  {
  }

  /** A value already in a prefix has its first occurrence there. */
  lemma FirstIndexInPrefix(xs: seq<string>, n: nat, x: string)
    requires n <= |xs| && x in xs[..n]
    ensures FirstIndex(xs, x) == FirstIndex(xs[..n], x)
  {
    var p := FirstIndex(xs[..n], x);
    assert xs[..p] == xs[..n][..p];
    FirstOccurrenceUnique(xs, x, p, FirstIndex(xs, x));
  }

  /** What a `Set` fed with `xs` holds: every value of `xs` once, nothing else, and the values in
      the order of their first occurrence in `xs`. */
  lemma {:induction false} DedupIsInsertionOrderedSet(xs: seq<string>)
    ensures NoDuplicates(Dedup(xs))
    ensures forall x :: x in Dedup(xs) <==> x in xs
    ensures forall a, b :: 0 <= a < b < |Dedup(xs)| ==> FirstIndex(xs, Dedup(xs)[a]) < FirstIndex(xs, Dedup(xs)[b])
  {
    if xs != [] {
      var n := |xs| - 1;
      var init := xs[..n];
      var d := Dedup(init);
      DedupIsInsertionOrderedSet(init);
      assert xs == init + [xs[n]];
      forall x | x in init ensures FirstIndex(xs, x) == FirstIndex(init, x) {
        FirstIndexInPrefix(xs, n, x);
      }
      if xs[n] !in d {
        assert xs[n] !in xs[..n];
        FirstOccurrenceUnique(xs, xs[n], n, FirstIndex(xs, xs[n]));
        forall a | 0 <= a < |d| ensures FirstIndex(xs, d[a]) < FirstIndex(xs, xs[n]) {
          assert d[a] in init;
        }
      }
    }
  }

  /** The first issue number, in list order, without a query result. */
  function FirstUnfetched(issues: seq<IssueRef>, fetched: map<int, IssueData>): (r: Option<int>)
    ensures r.None? <==> AllFetched(issues, fetched)
    ensures r.Some? ==> exists k :: && 0 <= k < |issues| && issues[k].number == r.value
                                    && r.value !in fetched && AllFetched(issues[..k], fetched)
  {
    if issues == [] then None
    else if issues[0].number !in fetched then
      assert AllFetched(issues[..0], fetched);
      Some(issues[0].number)
    else
      var r := FirstUnfetched(issues[1..], fetched);
      assert forall k :: 1 <= k < |issues| ==> issues[k] == issues[1..][k - 1];
      if r.Some? then
        var k :| && 0 <= k < |issues[1..]| && issues[1..][k].number == r.value
                 && r.value !in fetched && AllFetched(issues[1..][..k], fetched);
        assert issues[..k + 1] == [issues[0]] + issues[1..][..k];
        assert issues[k + 1].number == r.value;
        r
      else r
  }

  /** What a run of the loop in `main` over `issues` leaves: the set of URLs in insertion order,
      or the number of the first issue whose query throws. */
  function ScrapeResult(issues: seq<IssueRef>, fetched: map<int, IssueData>,
                        extract: string -> Option<string>): Result<seq<string>, int>
  {
    match FirstUnfetched(issues, fetched)
    case Some(n) => Failure(n)
    case None => Success(Dedup(Extractions(ScannedComments(issues, fetched), extract)))
  }

  /** After the loop, `urls` holds no duplicates, and its elements are exactly the distinct URLs
      extracted from every body and comment of every listed issue, in first-insertion order. */
  lemma ScrapeResultIsUrlSet(issues: seq<IssueRef>, fetched: map<int, IssueData>,
                             extract: string -> Option<string>)
    requires AllFetched(issues, fetched)
    ensures ScrapeResult(issues, fetched, extract).Success?
    ensures var urls := ScrapeResult(issues, fetched, extract).value;
            var found := Extractions(ScannedComments(issues, fetched), extract);
            && NoDuplicates(urls)
            && (forall x :: x in urls <==> x in found)
            && (forall a, b :: 0 <= a < b < |urls| ==> FirstIndex(found, urls[a]) < FirstIndex(found, urls[b]))
  {
    DedupIsInsertionOrderedSet(Extractions(ScannedComments(issues, fetched), extract));
  }

  /** One more text: the set gains its URL when there is one and it is new. */
  lemma DedupExtractionsStep(texts: seq<string>, t: string, extract: string -> Option<string>)
    ensures var r := extract(t);
            var d := Dedup(Extractions(texts, extract));
            Dedup(Extractions(texts + [t], extract)) == if IsUrl(r) && r.value !in d then d + [r.value] else d
  {
    var ts := texts + [t];
    assert ts[..|ts| - 1] == texts && ts[|ts| - 1] == t;
    var e := Extractions(texts, extract);
    var r := extract(t);
    if IsUrl(r) {
      var xs := e + [r.value];
      assert xs[..|xs| - 1] == e && xs[|xs| - 1] == r.value;
    } else {
      assert Extractions(ts, extract) == e;
    }
  }

  /** One more issue: its texts follow those of the issues before it. */
  lemma ScannedCommentsStep(issues: seq<IssueRef>, fetched: map<int, IssueData>, i: nat)
    requires i < |issues| && AllFetched(issues[..i], fetched) && issues[i].number in fetched
    ensures AllFetched(issues[..i + 1], fetched)
    ensures ScannedComments(issues[..i + 1], fetched)
            == ScannedComments(issues[..i], fetched) + CommentsForIssue(fetched[issues[i].number])
  {
    assert issues[..i + 1][..i] == issues[..i];
    assert issues[..i + 1][i] == issues[i];
  }

  /** Reaching a missing query result with all earlier ones present is the first failure. */
  lemma {:induction false} FirstUnfetchedAt(issues: seq<IssueRef>, fetched: map<int, IssueData>, i: nat)
    requires i < |issues| && AllFetched(issues[..i], fetched) && issues[i].number !in fetched
    ensures FirstUnfetched(issues, fetched) == Some(issues[i].number)
  {
    if i > 0 {
      assert issues[..i][0] == issues[0];
      assert issues[1..][..i - 1] == issues[..i][1..];
      FirstUnfetchedAt(issues[1..], fetched, i - 1);
    }
  }

  /** The inner loop of `main`, over the body and comments of one issue: each extracted URL
      joins the set unless it is already there. */
  method AddIssueUrls(urls: seq<string>, comments: seq<string>, parseUrl: string -> Option<string>,
                      ghost done: seq<string>)
    returns (urls': seq<string>)
    requires urls == Dedup(Extractions(done, Extractor(parseUrl)))
    ensures urls' == Dedup(Extractions(done + comments, Extractor(parseUrl)))
  {
    urls' := urls;
    var k := 0;
    assert done + comments[..0] == done;
    while k < |comments|
      invariant 0 <= k <= |comments|
      invariant urls' == Dedup(Extractions(done + comments[..k], Extractor(parseUrl)))
    {
      var url := ParseCommentForUrl(comments[k], parseUrl);
      AddUrlStep(done, comments, k, Extractor(parseUrl), urls', url);
      if IsUrl(url) && url.value !in urls' {
        urls' := urls' + [url.value];
      }
      k := k + 1;
    }
    assert comments[..k] == comments;
  }

  /** One step of the inner loop: the set after text `k` is the deduplicated extraction of
      the texts up to and including it. */
  lemma AddUrlStep(done: seq<string>, comments: seq<string>, k: nat, extract: string -> Option<string>,
                   urls: seq<string>, url: Option<string>)
    requires k < |comments| && url == extract(comments[k])
    requires urls == Dedup(Extractions(done + comments[..k], extract))
    ensures (if IsUrl(url) && url.value !in urls then urls + [url.value] else urls)
            == Dedup(Extractions(done + comments[..k + 1], extract))
  {
    DedupExtractionsStep(done + comments[..k], comments[k], extract);
    assert done + comments[..k + 1] == (done + comments[..k]) + [comments[k]];
  }

  /** `main`: builds the scan list with `unshift`, then for each issue in order, for each of its
      texts, adds the extracted URL to the set. A missing query result stops the run before any
      URL is printed, like the uncaught error it models. */
  method Scrape(root: int, timeline: seq<TimelineNode>, fetched: map<int, IssueData>,
                parseUrl: string -> Option<string>)
    returns (r: Result<seq<string>, int>)
    ensures r == ScrapeResult(ScanList(root, timeline), fetched, Extractor(parseUrl))
  {
    var issues := ReferencedIssues(timeline);
    issues := [IssueRef(root, None)] + issues;
    assert issues == ScanList(root, timeline);

    var urls: seq<string> := [];
    var i := 0;
    while i < |issues|
      invariant 0 <= i <= |issues|
      invariant AllFetched(issues[..i], fetched)
      invariant urls == Dedup(Extractions(ScannedComments(issues[..i], fetched), Extractor(parseUrl)))
    {
      var number := issues[i].number;
      if number !in fetched {
        FirstUnfetchedAt(issues, fetched, i);
        return Failure(number);
      }
      ScannedCommentsStep(issues, fetched, i);
      urls := AddIssueUrls(urls, CommentsForIssue(fetched[number]), parseUrl,
                           ScannedComments(issues[..i], fetched));
      i := i + 1;
    }
    assert issues[..i] == issues;
    return Success(urls);
  }
}
