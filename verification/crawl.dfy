/**
 * The per-seed crawl walker of `crawl_urls.py` (`crawl_subdomain`) and the
 * merge of the per-seed result sets in `main`.
 *
 * The network, the HTML parser, `urljoin` and `urlparse` are oracles held in
 * a `Web` record. The walker is written twice: `Step` is one turn of the
 * `while to_visit:` loop as a pure function of the walker state and of the
 * element `set.pop()` happened to return, and `Walk` runs it to exhaustion.
 * What the loop computes is characterised by reachability over the links
 * the oracles produce.
 */
module Crawl {
  import opened Options
  import opened PyStr
  import opened Urls

  /** What one `session.get(url, timeout=10)` produced; `Raised` is any exception, timeouts included. */
  datatype Response = Response(status: int, body: string) | Raised

  /**
   * The world outside the walker: the network (`get`), the anchors' href
   * values of a parsed page (`anchors`), `urljoin` (`join`) and `urlparse`
   * (`parse`).
   */
  datatype Web = Web(
    get: string -> Response,
    anchors: string -> seq<string>,
    join: (string, string) -> string,
    parse: string -> Url)

  /**
   * `fetch`: fail-soft. The body comes back only on status 200; any other
   * status and any exception give the empty string.
   */
  function Fetch(web: Web, url: string): (html: string)
    ensures html != [] ==> web.get(url) == Response(200, html)
    ensures web.get(url).Response? && web.get(url).status == 200 ==> html == web.get(url).body
    ensures web.get(url).Raised? || web.get(url).status != 200 ==> html == []
  {
    match web.get(url)
    case Response(status, body) => if status == 200 then body else []
    case Raised => []
  }

  /** `urlparse(base_url).netloc` */
  function SeedHost(web: Web, base: string): string {
    web.parse(base).netloc
  }

  /** The scope test: a plain suffix test on the host, with no dot boundary. */
  predicate InScope(host: string, seedHost: string) {
    EndsWith(host, seedHost)
  }

  /**
   * Any host that ends with the seed's host is in scope, whatever precedes
   * it: there is no dot boundary.
   */
  lemma InScopeAnyPrefix(prefix: string, seedHost: string)
    ensures InScope(prefix + seedHost, seedHost)
  {
    EndsWithConcat(prefix, seedHost);
  }

  /** A host is in scope exactly when it is some string followed by the seed's host. */
  lemma InScopeIff(host: string, seedHost: string)
    ensures InScope(host, seedHost) <==> exists prefix :: host == prefix + seedHost
  {
    if InScope(host, seedHost) {
      EndsWithSplit(host, seedHost);
    }
    forall prefix | host == prefix + seedHost
      ensures InScope(host, seedHost)
    {
      InScopeAnyPrefix(prefix, seedHost);
    }
  }

  /** The scope test on a few hosts, for the seed host `example.com`. */
  lemma ScopeExamples()
    ensures InScope("example.com", "example.com")
    ensures InScope("sub.example.com", "example.com")
    ensures InScope("badexample.com", "example.com")
    ensures !InScope("example.com.evil.net", "example.com")
  {
    InScopeAnyPrefix("sub.", "example.com");
    InScopeAnyPrefix("bad", "example.com");
    assert "example.com.evil.net"[9] == 'o';
  }

  /**
   * What one href of a page contributes: it is resolved against the SEED
   * (not against the page it was found on), parsed, scope-tested and cleaned.
   */
  function LinkTarget(web: Web, base: string, href: string): Option<string> {
    var p := web.parse(web.join(base, href));
    if InScope(p.netloc, SeedHost(web, base)) then Some(Cleaned(p)) else None
  }

  /** The cleaned in-scope targets of a list of hrefs. */
  function PageLinks(web: Web, base: string, hrefs: seq<string>): set<string> {
    set h | h in hrefs && LinkTarget(web, base, h).Some? :: LinkTarget(web, base, h).value
  }

  /** The links the walker takes from page `url`: none when the fetch comes back empty. */
  function Links(web: Web, base: string, url: string): set<string> {
    var html := Fetch(web, url);
    if html == [] then {} else PageLinks(web, base, web.anchors(html))
  }

  /** Every link is the cleaned form of an in-scope parsed URL. */
  lemma LinksAreScopedAndClean(web: Web, base: string, url: string, u: string)
    requires u in Links(web, base, url)
    ensures exists href :: (href in web.anchors(Fetch(web, url))
                            && InScope(web.parse(web.join(base, href)).netloc, SeedHost(web, base))
                            && u == Cleaned(web.parse(web.join(base, href))))
  {
    var h :| h in web.anchors(Fetch(web, url)) && LinkTarget(web, base, h) == Some(u);
  }

  lemma PageLinksCons(web: Web, base: string, hrefs: seq<string>)
    requires hrefs != []
    ensures PageLinks(web, base, hrefs) ==
      (match LinkTarget(web, base, hrefs[0]) case Some(c) => {c} case None => {})
      + PageLinks(web, base, hrefs[1..])
  {
    assert forall h :: h in hrefs <==> h == hrefs[0] || h in hrefs[1..] by {
      assert hrefs == [hrefs[0]] + hrefs[1..];
    }
  }

  /**
   * The `for link in soup.find_all('a', href=True)` loop, href by href: each
   * in-scope target joins `urls`, and joins `toVisit` unless already visited.
   * Its effect is the set-level one: all of the page's links join `urls`,
   * the unvisited ones join `toVisit`.
   */
  function ScanHrefs(web: Web, base: string, hrefs: seq<string>,
                     visited: set<string>, urls: set<string>, toVisit: set<string>)
    : (r: (set<string>, set<string>))
    ensures r.0 == urls + PageLinks(web, base, hrefs)
    ensures r.1 == toVisit + (PageLinks(web, base, hrefs) - visited)
    decreases |hrefs|
  {
    if hrefs == [] then (urls, toVisit)
    else
      var target := LinkTarget(web, base, hrefs[0]);
      var urls' := if target.Some? then urls + {target.value} else urls;
      var toVisit' := if target.Some? && target.value !in visited then toVisit + {target.value} else toVisit;
      var r := ScanHrefs(web, base, hrefs[1..], visited, urls', toVisit');
      ScanHrefsStep(web, base, hrefs, visited, urls, toVisit, urls', toVisit');
      r
  }

  /** One href's contribution, composed with the rest of the page's. */
  lemma ScanHrefsStep(web: Web, base: string, hrefs: seq<string>, visited: set<string>,
                      urls: set<string>, toVisit: set<string>, urls': set<string>, toVisit': set<string>)
    requires hrefs != []
    requires var t := LinkTarget(web, base, hrefs[0]);
      && urls' == (if t.Some? then urls + {t.value} else urls)
      && toVisit' == (if t.Some? && t.value !in visited then toVisit + {t.value} else toVisit)
    ensures urls' + PageLinks(web, base, hrefs[1..]) == urls + PageLinks(web, base, hrefs)
    ensures toVisit' + (PageLinks(web, base, hrefs[1..]) - visited) == toVisit + (PageLinks(web, base, hrefs) - visited)
  {
    PageLinksCons(web, base, hrefs);
  }

  /**
   * The walker's state: the result set `urls`, the frontier `to_visit`, the
   * set `visited`, and the log of URLs fetched so far, in order.
   */
  datatype Walker = Walker(urls: set<string>, toVisit: set<string>, visited: set<string>, fetched: seq<string>)

  /** `urls = set()`, `to_visit = set([base_url])`, `visited = set()` */
  function Start(base: string): Walker {
    Walker({}, {base}, {}, [])
  }

  /**
   * One turn of `while to_visit:` in which `to_visit.pop()` returned `cur`.
   * A visited `cur` is dropped; otherwise it is marked visited and fetched
   * (the one place a fetch happens), and its links are scanned unless the
   * page came back empty.
   */
  function Step(web: Web, base: string, w: Walker, cur: string): (w': Walker)
    requires cur in w.toVisit
    ensures cur in w.visited ==> w' == w.(toVisit := w.toVisit - {cur})
    ensures cur !in w.visited ==>
      && w'.visited == w.visited + {cur}
      && w'.fetched == w.fetched + [cur]
      && w'.urls == w.urls + Links(web, base, cur)
      && w'.toVisit == (w.toVisit - {cur}) + (Links(web, base, cur) - w'.visited)
  {
    var pending := w.toVisit - {cur};
    if cur in w.visited then w.(toVisit := pending)
    else
      var visited := w.visited + {cur};
      var fetched := w.fetched + [cur];
      var html := Fetch(web, cur);
      if html == [] then Walker(w.urls, pending, visited, fetched)
      else
        var (urls, toVisit) := ScanHrefs(web, base, web.anchors(html), visited, w.urls, pending);
        Walker(urls, toVisit, visited, fetched)
  }

  /** `visited`, `urls` and the fetch log only grow. */
  lemma StepMonotone(web: Web, base: string, w: Walker, cur: string)
    requires cur in w.toVisit
    ensures w.visited <= Step(web, base, w, cur).visited
    ensures w.urls <= Step(web, base, w, cur).urls
    ensures w.fetched <= Step(web, base, w, cur).fetched
  {
  }

  /**
   * A failed fetch leaves the URL visited, adds no links, and the walk goes
   * on with the rest of the frontier.
   */
  lemma StepDeadEnd(web: Web, base: string, w: Walker, cur: string)
    requires cur in w.toVisit && cur !in w.visited && Fetch(web, cur) == []
    ensures Step(web, base, w, cur) == Walker(w.urls, w.toVisit - {cur}, w.visited + {cur}, w.fetched + [cur])
  {
  }

  /** A URL joins the frontier only if it is a discovered link not visited at that moment. */
  lemma StepEnqueuesUnvisited(web: Web, base: string, w: Walker, cur: string, u: string)
    requires cur in w.toVisit
    requires u in Step(web, base, w, cur).toVisit && u !in w.toVisit
    ensures u !in Step(web, base, w, cur).visited
    ensures u in Step(web, base, w, cur).urls
  {
  }

  /** Every turn either grows `visited` by one or shrinks the frontier by one. */
  lemma StepProgress(web: Web, base: string, w: Walker, cur: string)
    requires cur in w.toVisit
    ensures
      || |Step(web, base, w, cur).visited| == |w.visited| + 1
      || (Step(web, base, w, cur).visited == w.visited
          && |Step(web, base, w, cur).toVisit| == |w.toVisit| - 1)
  {
  }

  // ----- reachability: what the walk is meant to find -----

  /** `u` is the seed or is reached from it by following at most `n` links. */
  ghost predicate ReachableWithin(web: Web, base: string, u: string, n: nat)
    decreases n
  {
    u == base || (n > 0 && exists v :: ReachableWithin(web, base, v, n - 1) && u in Links(web, base, v))
  }

  ghost predicate Reachable(web: Web, base: string, u: string) {
    exists n: nat :: ReachableWithin(web, base, u, n)
  }

  /** `u` is a link on some page reachable from the seed: what ends up in `urls`. */
  ghost predicate Discovered(web: Web, base: string, u: string) {
    exists v :: Reachable(web, base, v) && u in Links(web, base, v)
  }

  /** `r` is what `crawl_subdomain` returns for the seed `base`. */
  ghost predicate IsResult(web: Web, base: string, r: set<string>) {
    forall u :: u in r <==> Discovered(web, base, u)
  }

  /**
   * Every URL of a crawl result comes from an href on a reachable page: that
   * href, resolved against the seed and parsed, has an in-scope host, and the
   * URL is its cleaned form.
   */
  lemma ResultScopedAndClean(web: Web, base: string, r: set<string>, u: string)
    requires IsResult(web, base, r) && u in r
    ensures exists v, href ::
              && Reachable(web, base, v)
              && href in web.anchors(Fetch(web, v))
              && InScope(web.parse(web.join(base, href)).netloc, SeedHost(web, base))
              && u == Cleaned(web.parse(web.join(base, href)))
  {
    var v :| Reachable(web, base, v) && u in Links(web, base, v);
    LinksAreScopedAndClean(web, base, v, u);
    var href :| href in web.anchors(Fetch(web, v))
      && InScope(web.parse(web.join(base, href)).netloc, SeedHost(web, base))
      && u == Cleaned(web.parse(web.join(base, href)));
  }

  /** A set that contains the links of each of its members. */
  ghost predicate Closed(web: Web, base: string, s: set<string>) {
    forall v :: v in s ==> Links(web, base, v) <= s
  }

  /** A link of a reachable page is reachable. */
  lemma LinkOfReachable(web: Web, base: string, v: string, u: string)
    requires Reachable(web, base, v) && u in Links(web, base, v)
    ensures Reachable(web, base, u)
  {
    var n: nat :| ReachableWithin(web, base, v, n);
    assert ReachableWithin(web, base, u, n + 1);
  }

  /** Everything reachable lies in any closed set holding the seed. */
  lemma {:induction false} ReachableInClosed(web: Web, base: string, s: set<string>, u: string, n: nat)
    requires base in s && Closed(web, base, s)
    requires ReachableWithin(web, base, u, n)
    ensures u in s
    decreases n
  {
    if u != base {
      var v :| ReachableWithin(web, base, v, n - 1) && u in Links(web, base, v);
      ReachableInClosed(web, base, s, v, n - 1);
    }
  }

  // ----- the loop invariant -----

  /** No URL is fetched twice, and the fetch log holds exactly the visited URLs. */
  ghost predicate FetchedOnce(w: Walker) {
    && (forall i, j :: 0 <= i < j < |w.fetched| ==> w.fetched[i] != w.fetched[j])
    && (forall u :: u in w.visited <==> u in w.fetched)
  }

  /** `urls` is exactly the set of links of the visited pages. */
  ghost predicate UrlsAreLinks(web: Web, base: string, w: Walker) {
    forall u :: u in w.urls <==> exists v :: v in w.visited && u in Links(web, base, v)
  }

  /** Every link of a visited page is visited or waiting in the frontier. */
  ghost predicate FrontierCovers(web: Web, base: string, w: Walker) {
    forall v, u :: v in w.visited && u in Links(web, base, v) ==> u in w.visited || u in w.toVisit
  }

  ghost predicate Inv(web: Web, base: string, w: Walker) {
    && FetchedOnce(w)
    && UrlsAreLinks(web, base, w)
    && FrontierCovers(web, base, w)
    && w.toVisit !! w.visited
    && (base in w.visited || base in w.toVisit)
    && w.visited + w.toVisit <= {base} + w.urls
    && (forall u :: u in w.visited + w.toVisit ==> Reachable(web, base, u))
  }

  lemma StartInv(web: Web, base: string)
    ensures Inv(web, base, Start(base))
  {
    assert ReachableWithin(web, base, base, 0);
  }

  lemma StepFetchedOnce(web: Web, base: string, w: Walker, cur: string)
    requires FetchedOnce(w) && cur in w.toVisit
    ensures FetchedOnce(Step(web, base, w, cur))
  {
    var w' := Step(web, base, w, cur);
    if cur !in w.visited {
      forall i, j | 0 <= i < j < |w'.fetched|
        ensures w'.fetched[i] != w'.fetched[j]
      {
        if j == |w.fetched| {
          assert w'.fetched[i] == w.fetched[i];
        }
      }
    }
  }

  lemma StepUrlsAreLinks(web: Web, base: string, w: Walker, cur: string)
    requires UrlsAreLinks(web, base, w) && cur in w.toVisit && cur !in w.visited
    ensures UrlsAreLinks(web, base, Step(web, base, w, cur))
  {
    var w' := Step(web, base, w, cur);
    forall u
      ensures u in w'.urls <==> exists v :: v in w'.visited && u in Links(web, base, v)
    {
      if u in Links(web, base, cur) {
        assert cur in w'.visited;
      }
    }
  }

  lemma StepFrontierCovers(web: Web, base: string, w: Walker, cur: string)
    requires FrontierCovers(web, base, w) && cur in w.toVisit && cur !in w.visited
    ensures FrontierCovers(web, base, Step(web, base, w, cur))
  {
  }

  lemma StepReachable(web: Web, base: string, w: Walker, cur: string)
    requires forall u :: u in w.visited + w.toVisit ==> Reachable(web, base, u)
    requires cur in w.toVisit && cur !in w.visited
    ensures forall u :: u in Step(web, base, w, cur).visited + Step(web, base, w, cur).toVisit ==> Reachable(web, base, u)
  {
    forall u | u in Links(web, base, cur)
      ensures Reachable(web, base, u)
    {
      LinkOfReachable(web, base, cur, u);
    }
  }

  lemma StepFrontierShape(web: Web, base: string, w: Walker, cur: string)
    requires w.toVisit !! w.visited && (base in w.visited || base in w.toVisit)
    requires w.visited + w.toVisit <= {base} + w.urls
    requires cur in w.toVisit
    ensures Step(web, base, w, cur).toVisit !! Step(web, base, w, cur).visited
    ensures base in Step(web, base, w, cur).visited || base in Step(web, base, w, cur).toVisit
    ensures Step(web, base, w, cur).visited + Step(web, base, w, cur).toVisit <= {base} + Step(web, base, w, cur).urls
  {
  }

  /**
   * The invariant survives a turn. In particular the frontier and `visited`
   * stay disjoint, so the `if current_url in visited: continue` guard never
   * fires in a sequential walk.
   */
  lemma StepInv(web: Web, base: string, w: Walker, cur: string)
    requires Inv(web, base, w) && cur in w.toVisit
    ensures cur !in w.visited
    ensures Inv(web, base, Step(web, base, w, cur))
  {
    StepFetchedOnce(web, base, w, cur);
    StepUrlsAreLinks(web, base, w, cur);
    StepFrontierCovers(web, base, w, cur);
    StepReachable(web, base, w, cur);
    StepFrontierShape(web, base, w, cur);
  }

  /**
   * When the frontier is empty: the walk has visited exactly the seed and
   * the result set, and exactly the URLs reachable from the seed.
   */
  lemma ExitCharacterisation(web: Web, base: string, w: Walker)
    requires Inv(web, base, w) && w.toVisit == {}
    ensures w.visited == {base} + w.urls
    ensures Closed(web, base, w.visited)
    ensures forall u :: u in w.visited <==> Reachable(web, base, u)
    ensures forall u :: u in w.urls <==> Discovered(web, base, u)
  {
    forall u | Reachable(web, base, u)
      ensures u in w.visited
    {
      var n: nat :| ReachableWithin(web, base, u, n);
      ReachableInClosed(web, base, w.visited, u, n);
    }
    forall u | Discovered(web, base, u)
      ensures u in w.urls
    {
      var v :| Reachable(web, base, v) && u in Links(web, base, v);
      assert v in w.visited;
    }
  }

  /** Inside a closed universe the walk stays inside it, and each turn visits one more of its members. */
  lemma StepInUniverse(web: Web, base: string, w: Walker, cur: string, universe: set<string>)
    requires Closed(web, base, universe) && w.visited + w.toVisit <= universe
    requires cur in w.toVisit && cur !in w.visited
    ensures Step(web, base, w, cur).visited + Step(web, base, w, cur).toVisit <= universe
    ensures |universe - Step(web, base, w, cur).visited| < |universe - w.visited|
  {
    assert Links(web, base, cur) <= universe;
    assert universe - (w.visited + {cur}) == (universe - w.visited) - {cur};
  }

  /**
   * `crawl_subdomain`'s loop. It terminates whenever the links reachable
   * from the seed stay inside some finite closed set `universe`; the result
   * does not depend on the order `set.pop()` picks.
   */
  method Walk(web: Web, base: string, ghost universe: set<string>) returns (w: Walker)
    requires base in universe && Closed(web, base, universe)
    ensures w.toVisit == {}
    ensures Inv(web, base, w)
    ensures w.visited <= universe
  {
    w := Start(base);
    StartInv(web, base);
    while w.toVisit != {}
      invariant Inv(web, base, w)
      invariant w.visited + w.toVisit <= universe
      decreases |universe - w.visited|
    {
      var cur :| cur in w.toVisit;
      StepInv(web, base, w, cur);
      StepInUniverse(web, base, w, cur, universe);
      w := Step(web, base, w, cur);
    }
  }

  /**
   * `crawl_subdomain`: the result is every link found on a page reachable
   * from the seed. The seed is reachable, but belongs to the result only
   * when some reachable page links back to it, since `urls` starts empty.
   */
  method CrawlSubdomain(web: Web, base: string, ghost universe: set<string>) returns (urls: set<string>)
    requires base in universe && Closed(web, base, universe)
    ensures IsResult(web, base, urls)
    ensures forall u :: Reachable(web, base, u) <==> u == base || u in urls
    ensures urls <= universe
  {
    var w := Walk(web, base, universe);
    ExitCharacterisation(web, base, w);
    urls := w.urls;
  }

  // ----- merging the per-seed results -----

  /** `all_urls.update(url_set)` for each result in turn. */
  function Merge(results: seq<set<string>>): (all: set<string>)
    ensures forall u :: u in all <==> exists i :: 0 <= i < |results| && u in results[i]
  {
    if results == [] then {}
    else Merge(results[..|results| - 1]) + results[|results| - 1]
  }

  /** The merged set depends only on which results there are, not on their order. */
  lemma MergeOrderIndependent(a: seq<set<string>>, b: seq<set<string>>)
    requires multiset(a) == multiset(b)
    ensures Merge(a) == Merge(b)
  {
    forall u | u in Merge(a)
      ensures u in Merge(b)
    {
      var i :| 0 <= i < |a| && u in a[i];
      assert a[i] in multiset(b);
      var j :| 0 <= j < |b| && b[j] == a[i];
    }
    forall u | u in Merge(b)
      ensures u in Merge(a)
    {
      var j :| 0 <= j < |b| && u in b[j];
      assert b[j] in multiset(a);
      var i :| 0 <= i < |a| && a[i] == b[j];
    }
  }

  /**
   * `main`: one walker per seed, then the union. The seeds share nothing, so
   * what one seed contributes does not depend on the others.
   */
  method CrawlAll(web: Web, seeds: seq<string>, ghost universes: seq<set<string>>) returns (all: set<string>)
    requires |universes| == |seeds|
    requires forall i :: 0 <= i < |seeds| ==> seeds[i] in universes[i] && Closed(web, seeds[i], universes[i])
    ensures forall u :: u in all <==> exists i :: 0 <= i < |seeds| && Discovered(web, seeds[i], u)
  {
    var results: seq<set<string>> := [];
    for i := 0 to |seeds|
      invariant |results| == i
      invariant forall j :: 0 <= j < i ==> IsResult(web, seeds[j], results[j])
    {
      var r := CrawlSubdomain(web, seeds[i], universes[i]);
      ghost var before := results;
      results := results + [r];
      forall j | 0 <= j < i + 1
        ensures IsResult(web, seeds[j], results[j])
      {
        if j < i {
          assert results[j] == before[j];
        }
      }
    }
    all := Merge(results);
    forall u
      ensures u in all <==> exists i :: 0 <= i < |seeds| && Discovered(web, seeds[i], u)
    {
      if u in all {
        var i :| 0 <= i < |results| && u in results[i];
        assert IsResult(web, seeds[i], results[i]);
      }
      if exists i :: 0 <= i < |seeds| && Discovered(web, seeds[i], u) {
        var i :| 0 <= i < |seeds| && Discovered(web, seeds[i], u);
        assert IsResult(web, seeds[i], results[i]);
      }
    }
  }
}
