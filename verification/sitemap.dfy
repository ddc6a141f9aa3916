/**
 * The two sitemap builders: the link list, page list and link/page pairing
 * of `scrape_pages` (`backend/sitemapper.py`) and of the fresh-scrape branch
 * of `generate_embedding_manifest` (`sitemapper.py`), and the "force https"
 * rule both `write_sitemap`s apply to a department's href.
 *
 * The scrapes are not performed here: the outcome of scraping each link, in
 * link order, is an input (`None` when the scrape raised or returned `None`).
 */
module Sitemap {
  import opened Options
  import opened PyStr
  import opened Seqs

  /** One entry of `site_titles_urls.json`. */
  datatype Site = Site(text: string, url: string, sublinks: seq<string>)

  // ----- link lists -----

  /** One site's links: its `url`, then one link per sublink made by `entry(url, sublink)`. */
  function SiteLinks(site: Site, entry: (string, string) -> string): seq<string> {
    [site.url] + Map(s => entry(site.url, s), site.sublinks)
  }

  /** The number of links a sitemap yields: the sum over its sites of one plus the sublink count. */
  function LinkCount(sitemap: seq<Site>): nat {
    if sitemap == [] then 0
    else LinkCount(sitemap[..|sitemap| - 1]) + 1 + |sitemap[|sitemap| - 1].sublinks|
  }

  /** The `for site in sitemap` loop appending to `links`, with `entry` building a sublink's link. */
  function BuildLinks(sitemap: seq<Site>, entry: (string, string) -> string): (links: seq<string>)
    ensures |links| == LinkCount(sitemap)
  {
    if sitemap == [] then []
    else BuildLinks(sitemap[..|sitemap| - 1], entry) + SiteLinks(sitemap[|sitemap| - 1], entry)
  }

  /**
   * Where each site's links sit: site `k` starts at the number of links its
   * predecessors yield, with its `url` first and then its sublinks' links in
   * order.
   */
  lemma {:induction false} BuildLinksLayout(sitemap: seq<Site>, entry: (string, string) -> string, k: nat)
    requires k < |sitemap|
    ensures LinkCount(sitemap[..k]) + 1 + |sitemap[k].sublinks| <= |BuildLinks(sitemap, entry)|
    ensures BuildLinks(sitemap, entry)[LinkCount(sitemap[..k])] == sitemap[k].url
    ensures forall i :: 0 <= i < |sitemap[k].sublinks| ==>
      BuildLinks(sitemap, entry)[LinkCount(sitemap[..k]) + 1 + i] == entry(sitemap[k].url, sitemap[k].sublinks[i])
  {
    var n := |sitemap|;
    var init := sitemap[..n - 1];
    var site := sitemap[n - 1];
    assert BuildLinks(sitemap, entry) == BuildLinks(init, entry) + SiteLinks(site, entry);
    if k == n - 1 {
      assert init == sitemap[..k];
    } else {
      BuildLinksLayout(init, entry, k);
      assert init[..k] == sitemap[..k];
      assert init[k] == sitemap[k];
    }
  }

  /** `urljoin(base_url + '/', sublink)`, with `urljoin` an oracle. */
  function BackendLinks(sitemap: seq<Site>, join: (string, string) -> string): seq<string> {
    BuildLinks(sitemap, (url, s) => join(url + "/", s))
  }

  /** `f"{site['url']}/{sublink}"`: plain concatenation, no `../` resolution. */
  function RootEntry(url: string, sublink: string): string {
    url + "/" + sublink
  }

  function RootLinks(sitemap: seq<Site>): seq<string> {
    BuildLinks(sitemap, RootEntry)
  }

  /**
   * The backend's link list: one link per site plus one per sublink, the
   * site's `url` first, then `urljoin(url + '/', sublink)` for each sublink
   * in order, sites in order.
   */
  lemma BackendLinksLayout(sitemap: seq<Site>, join: (string, string) -> string, k: nat)
    requires k < |sitemap|
    ensures |BackendLinks(sitemap, join)| == LinkCount(sitemap)
    ensures LinkCount(sitemap[..k]) + 1 + |sitemap[k].sublinks| <= LinkCount(sitemap)
    ensures BackendLinks(sitemap, join)[LinkCount(sitemap[..k])] == sitemap[k].url
    ensures forall i :: 0 <= i < |sitemap[k].sublinks| ==>
      BackendLinks(sitemap, join)[LinkCount(sitemap[..k]) + 1 + i] == join(sitemap[k].url + "/", sitemap[k].sublinks[i])
  {
    BuildLinksLayout(sitemap, (url, s) => join(url + "/", s), k);
  }

  /**
   * The root builder's link list: the same layout, with each sublink's link
   * literally `url + "/" + sublink`.
   */
  lemma RootLinksLayout(sitemap: seq<Site>, k: nat)
    requires k < |sitemap|
    ensures |RootLinks(sitemap)| == LinkCount(sitemap)
    ensures LinkCount(sitemap[..k]) + 1 + |sitemap[k].sublinks| <= LinkCount(sitemap)
    ensures RootLinks(sitemap)[LinkCount(sitemap[..k])] == sitemap[k].url
    ensures forall i :: 0 <= i < |sitemap[k].sublinks| ==>
      RootLinks(sitemap)[LinkCount(sitemap[..k]) + 1 + i] == sitemap[k].url + "/" + sitemap[k].sublinks[i]
  {
    BuildLinksLayout(sitemap, RootEntry, k);
  }

  /** A `../` sublink is glued on as is. */
  lemma RootLinksDoNotResolve()
    ensures RootLinks([Site("", "https://a.edu", ["../x"])]) == ["https://a.edu", "https://a.edu/../x"]
  {
    var sitemap := [Site("", "https://a.edu", ["../x"])];
    assert sitemap[..0] == [];
    var tail := Map(s => RootEntry("https://a.edu", s), ["../x"]);
    assert tail[0] == RootEntry("https://a.edu", "../x");
    assert RootEntry("https://a.edu", "../x") == "https://a.edu/../x";
    assert tail == ["https://a.edu/../x"];
    assert SiteLinks(sitemap[0], RootEntry) == ["https://a.edu"] + tail;
  }

  // ----- page lists -----

  /** The backend keeps a page when `scrape_page` returned a non-empty text (`if page_content:`). */
  predicate Truthy(o: Option<string>) {
    o.Some? && o.value != []
  }

  /** The root builder keeps every page whose request did not raise, empty text included. */
  predicate Succeeded(o: Option<string>) {
    o.Some?
  }

  /** The text of a scrape outcome; none for a failed scrape. */
  function Content(o: Option<string>): string {
    match o
    case Some(text) => text
    case None => []
  }

  /** `pages`: the accepted scrape outcomes' texts, in link order. */
  function CollectPages(outcomes: seq<Option<string>>, accept: Option<string> -> bool): (pages: seq<string>)
    ensures |pages| <= |outcomes|
  {
    Map(Content, Filter(outcomes, accept))
  }

  /** `pages` holds exactly the accepted outcomes' texts, in the order of their links. */
  lemma CollectPagesSpec(outcomes: seq<Option<string>>, accept: Option<string> -> bool)
    ensures |CollectPages(outcomes, accept)| == |Positions(outcomes, accept)|
    ensures StrictlyIncreasing(Positions(outcomes, accept))
    ensures forall i :: 0 <= i < |CollectPages(outcomes, accept)| ==>
      && accept(outcomes[Positions(outcomes, accept)[i]])
      && CollectPages(outcomes, accept)[i] == Content(outcomes[Positions(outcomes, accept)[i]])
    ensures forall k :: 0 <= k < |outcomes| && accept(outcomes[k]) ==> k in Positions(outcomes, accept)
  {
    var idx := Positions(outcomes, accept);
    PositionsIncreasing(outcomes, accept);
    forall i | 0 <= i < |idx|
      ensures accept(outcomes[idx[i]])
      ensures CollectPages(outcomes, accept)[i] == Content(outcomes[idx[i]])
    {
      PositionsSelect(outcomes, accept, i);
    }
    forall k | 0 <= k < |outcomes| && accept(outcomes[k])
      ensures k in idx
    {
      PositionsComplete(outcomes, accept, k);
    }
  }

  /** The backend's `pages`: only non-empty texts, each the text of its link's scrape, in link order. */
  lemma BackendPagesSpec(outcomes: seq<Option<string>>)
    ensures |CollectPages(outcomes, Truthy)| == |Positions(outcomes, Truthy)|
    ensures StrictlyIncreasing(Positions(outcomes, Truthy))
    ensures forall i :: 0 <= i < |CollectPages(outcomes, Truthy)| ==>
      && CollectPages(outcomes, Truthy)[i] != []
      && outcomes[Positions(outcomes, Truthy)[i]] == Some(CollectPages(outcomes, Truthy)[i])
    ensures forall k :: 0 <= k < |outcomes| && Truthy(outcomes[k]) ==> k in Positions(outcomes, Truthy)
  {
    CollectPagesSpec(outcomes, Truthy);
  }

  /** The root builder's `pages`: one text per scrape that did not raise, in link order. */
  lemma RootPagesSpec(outcomes: seq<Option<string>>)
    ensures |CollectPages(outcomes, Succeeded)| == |Positions(outcomes, Succeeded)|
    ensures StrictlyIncreasing(Positions(outcomes, Succeeded))
    ensures forall i :: 0 <= i < |CollectPages(outcomes, Succeeded)| ==>
      outcomes[Positions(outcomes, Succeeded)[i]] == Some(CollectPages(outcomes, Succeeded)[i])
    ensures forall k :: 0 <= k < |outcomes| && outcomes[k].Some? ==> k in Positions(outcomes, Succeeded)
  {
    CollectPagesSpec(outcomes, Succeeded);
  }

  // ----- pairing links with pages -----

  /** `zip(links, pages)`: pairs by position, as the source writes it. */
  function PairLinksPages(links: seq<string>, pages: seq<string>): seq<(string, string)> {
    Zip(links, pages)
  }

  /**
   * The `i`-th pair holds the `i`-th link and the page of the `i`-th accepted
   * link, and these are the same link exactly when no scrape up to and
   * including link `i` was rejected: after the first failure every later
   * pair is misaligned.
   */
  lemma PairingByPosition(links: seq<string>, outcomes: seq<Option<string>>, accept: Option<string> -> bool)
    requires |outcomes| == |links|
    ensures |PairLinksPages(links, CollectPages(outcomes, accept))| == |Positions(outcomes, accept)|
    ensures forall i :: 0 <= i < |Positions(outcomes, accept)| ==>
      PairLinksPages(links, CollectPages(outcomes, accept))[i] ==
        (links[i], Content(outcomes[Positions(outcomes, accept)[i]]))
    ensures forall i :: 0 <= i < |Positions(outcomes, accept)| ==>
      (Positions(outcomes, accept)[i] == i <==> forall j :: 0 <= j <= i ==> accept(outcomes[j]))
  {
    CollectPagesSpec(outcomes, accept);
    forall i | 0 <= i < |Positions(outcomes, accept)|
      ensures Positions(outcomes, accept)[i] == i <==> forall j :: 0 <= j <= i ==> accept(outcomes[j])
    {
      PositionsAligned(outcomes, accept, i);
    }
  }

  /** The backend's `links_pages`, with `if page_content:` deciding which pages exist. */
  lemma BackendPairing(links: seq<string>, outcomes: seq<Option<string>>)
    requires |outcomes| == |links|
    ensures |PairLinksPages(links, CollectPages(outcomes, Truthy))| == |CollectPages(outcomes, Truthy)|
    ensures forall i :: 0 <= i < |Positions(outcomes, Truthy)| ==>
      PairLinksPages(links, CollectPages(outcomes, Truthy))[i] ==
        (links[i], Content(outcomes[Positions(outcomes, Truthy)[i]]))
    ensures forall i :: 0 <= i < |Positions(outcomes, Truthy)| ==>
      (Positions(outcomes, Truthy)[i] == i <==> forall j :: 0 <= j <= i ==> Truthy(outcomes[j]))
  {
    PairingByPosition(links, outcomes, Truthy);
  }

  /** The root builder's `links_pages`, where only a raised request loses a page. */
  lemma RootPairing(links: seq<string>, outcomes: seq<Option<string>>)
    requires |outcomes| == |links|
    ensures |PairLinksPages(links, CollectPages(outcomes, Succeeded))| == |CollectPages(outcomes, Succeeded)|
    ensures forall i :: 0 <= i < |Positions(outcomes, Succeeded)| ==>
      PairLinksPages(links, CollectPages(outcomes, Succeeded))[i] ==
        (links[i], Content(outcomes[Positions(outcomes, Succeeded)[i]]))
    ensures forall i :: 0 <= i < |Positions(outcomes, Succeeded)| ==>
      (Positions(outcomes, Succeeded)[i] == i <==> forall j :: 0 <= j <= i ==> outcomes[j].Some?)
  {
    PairingByPosition(links, outcomes, Succeeded);
  }

  /**
   * One failed scrape is enough: with links `a`, `b` and only `b` scraped,
   * the single pair written is `a` with `b`'s page.
   */
  lemma ZipMisalignsAfterFailure()
    ensures PairLinksPages(["a", "b"], CollectPages([None, Some("B")], Truthy)) == [("a", "B")]
  {
    var outcomes: seq<Option<string>> := [None, Some("B")];
    assert Filter(outcomes, Truthy) == [Some("B")] by {
      assert outcomes[1..] == [Some("B")];
      assert outcomes[1..][1..] == [];
    }
  }

  /** The root builder likewise: the request for `a` raises, and `a` is written with `b`'s page. */
  lemma RootZipMisalignsAfterFailure()
    ensures PairLinksPages(["a", "b"], CollectPages([None, Some("B")], Succeeded)) == [("a", "B")]
  {
    var outcomes: seq<Option<string>> := [None, Some("B")];
    assert Filter(outcomes, Succeeded) == [Some("B")] by {
      assert outcomes[1..] == [Some("B")];
      assert outcomes[1..][1..] == [];
    }
  }

  /** What the pairing is evidently meant to produce: each accepted link with its own page. */
  function PairOwnPages(links: seq<string>, outcomes: seq<Option<string>>, accept: Option<string> -> bool)
    : seq<(string, string)>
    requires |outcomes| == |links|
  {
    if links == [] then []
    else
      (if accept(outcomes[0]) then [(links[0], Content(outcomes[0]))] else [])
      + PairOwnPages(links[1..], outcomes[1..], accept)
  }

  /**
   * The corrected pairing holds exactly the accepted links, each together
   * with the text of its own scrape.
   */
  lemma {:induction false} PairOwnPagesAligned(links: seq<string>, outcomes: seq<Option<string>>,
                                               accept: Option<string> -> bool)
    requires |outcomes| == |links|
    ensures forall x :: x in PairOwnPages(links, outcomes, accept) <==>
      exists i :: 0 <= i < |links| && accept(outcomes[i]) && x == (links[i], Content(outcomes[i]))
  {
    if links != [] {
      PairOwnPagesAligned(links[1..], outcomes[1..], accept);
      forall x
        ensures x in PairOwnPages(links, outcomes, accept) <==>
          exists i :: 0 <= i < |links| && accept(outcomes[i]) && x == (links[i], Content(outcomes[i]))
      {
        if x in PairOwnPages(links[1..], outcomes[1..], accept) {
          var i :| 0 <= i < |links| - 1 && accept(outcomes[1..][i]) && x == (links[1..][i], Content(outcomes[1..][i]));
          assert accept(outcomes[i + 1]) && x == (links[i + 1], Content(outcomes[i + 1]));
        }
        if exists i :: 0 <= i < |links| && accept(outcomes[i]) && x == (links[i], Content(outcomes[i])) {
          var i :| 0 <= i < |links| && accept(outcomes[i]) && x == (links[i], Content(outcomes[i]));
          if i > 0 {
            assert accept(outcomes[1..][i - 1]) && x == (links[1..][i - 1], Content(outcomes[1..][i - 1]));
          }
        }
      }
    }
  }

  /** With the first link's scrape failed, the corrected pairing pairs `b` with its own page. */
  lemma PairOwnPagesExample()
    ensures PairOwnPages(["a", "b"], [None, Some("B")], Truthy) == [("b", "B")]
  {
    var links := ["a", "b"];
    var outcomes: seq<Option<string>> := [None, Some("B")];
    assert links[1..] == ["b"] && outcomes[1..] == [Some("B")];
    assert links[1..][1..] == [] && outcomes[1..][1..] == [];
  }

  // ----- forcing https on a department's href -----

  /** The characters `lstrip("http://")` removes: a set, not a prefix. */
  const HttpChars: set<char> := {'h', 't', 'p', ':', '/'}

  /** `if not href.strip().startswith("https://"): href = "https://" + href.lstrip("http://")` */
  function ForceHttps(href: string): string {
    if StartsWith(Strip(href), "https://") then href else "https://" + LStrip(href, HttpChars)
  }

  /**
   * An href whose stripped form starts with `https://` is kept; any other
   * becomes `https://` followed by what is left of the href once its whole
   * leading run of `h`, `t`, `p`, `:` and `/` characters is gone.
   */
  lemma ForceHttpsShape(href: string)
    ensures StartsWith(Strip(href), "https://") ==> ForceHttps(href) == href
    ensures !StartsWith(Strip(href), "https://") ==>
      exists k :: (0 <= k <= |href| && ForceHttps(href) == "https://" + href[k..]
                   && (forall j :: 0 <= j < k ==> href[j] in HttpChars)
                   && (k == |href| || href[k] !in HttpChars))
  {
    if !StartsWith(Strip(href), "https://") {
      var r := LStrip(href, HttpChars);
      var k := |href| - |r|;
      assert ForceHttps(href) == "https://" + href[k..];
    }
  }

  /** A scheme prefix survives `strip()` whatever follows it. */
  lemma SchemeSurvivesStrip(rest: string)
    ensures StartsWith(Strip("https://" + rest), "https://")
    ensures StartsWith(Strip("http://" + rest), "http://")
  {
    StripKeepsPrefix("https://", rest);
    StripKeepsPrefix("http://", rest);
  }

  /** The result's stripped form always starts with `https://`. */
  lemma ForceHttpsStartsHttps(href: string)
    ensures StartsWith(Strip(ForceHttps(href)), "https://")
  {
    if !StartsWith(Strip(href), "https://") {
      SchemeSurvivesStrip(LStrip(href, HttpChars));
    }
  }

  /** Normalising twice is normalising once. */
  lemma ForceHttpsIdempotent(href: string)
    ensures ForceHttps(ForceHttps(href)) == ForceHttps(href)
  {
    ForceHttpsStartsHttps(href);
  }

  predicate NotYetHttps(href: string) {
    !StartsWith(Strip(href), "https://")
  }

  /** An href not yet on https loses exactly its leading run of `HttpChars`. */
  lemma ForceHttpsDrops(href: string, k: nat)
    requires NotYetHttps(href)
    requires k <= |href| && (forall j :: 0 <= j < k ==> href[j] in HttpChars)
    requires k == |href| || href[k] !in HttpChars
    ensures ForceHttps(href) == "https://" + href[k..]
  {
    LStripAt(href, HttpChars, k);
  }

  // The example lemmas below take their literals as parameters pinned by
  // `requires`, so that the verifier does not unroll `LStrip` and `Strip` on
  // a literal; each proves one small step.

  lemma HpcNotYetHttps(s: string)
    requires s == "http://hpc.unm.edu"
    ensures NotYetHttps(s)
  {
    var rest := s[7..];
    assert s == "http://" + rest;
    HttpIsNotHttps(rest);
  }

  lemma HpcLeadingRun(s: string)
    requires s == "http://hpc.unm.edu"
    ensures 9 <= |s| && (forall j :: 0 <= j < 9 ==> s[j] in HttpChars)
    ensures s[9] !in HttpChars && s[9..] == "c.unm.edu"
  {
  }

  /** `http://hpc.unm.edu` loses the `hp` of its host along with the scheme. */
  lemma ForceHttpsEatsHostAt(s: string)
    requires s == "http://hpc.unm.edu"
    ensures ForceHttps(s) == "https://c.unm.edu"
  {
    HpcNotYetHttps(s);
    HpcLeadingRun(s);
    ForceHttpsDrops(s, 9);
    HpcJoined("https://", s[9..]);
  }

  lemma HpcJoined(scheme: string, host: string)
    requires scheme == "https://" && host == "c.unm.edu"
    ensures scheme + host == "https://c.unm.edu"
  {
  }

  /** The character-set strip eats into the host: `http://hpc.unm.edu` becomes `https://c.unm.edu`. */
  lemma ForceHttpsEatsHost()
    ensures ForceHttps("http://hpc.unm.edu") == "https://c.unm.edu"
  {
    ForceHttpsEatsHostAt("http://hpc.unm.edu");
  }

  /** What the rule is evidently meant to do: replace an `http://` prefix, not a character set. */
  function ForceHttpsPrefix(href: string): string {
    if StartsWith(Strip(href), "https://") then href
    else if StartsWith(href, "http://") then "https://" + href[7..]
    else "https://" + href
  }

  /** An href starting `http://` is not yet on https, even after `strip()`. */
  lemma HttpIsNotHttps(rest: string)
    ensures NotYetHttps("http://" + rest)
  {
    SchemeSurvivesStrip(rest);
    StartsWithExcludes(Strip("http://" + rest), "http://", "https://", 4);
  }

  /**
   * The corrected rule keeps the host: `http://` + rest becomes
   * `https://` + rest, and an href with no scheme that is not yet on https
   * is prefixed.
   */
  lemma ForceHttpsPrefixKeepsHost(rest: string, href: string)
    ensures ForceHttpsPrefix("http://" + rest) == "https://" + rest
    ensures NotYetHttps(href) && !StartsWith(href, "http://") ==>
      ForceHttpsPrefix(href) == "https://" + href
  {
    var s := "http://" + rest;
    HttpIsNotHttps(rest);
    assert s[..7] == "http://" && s[7..] == rest;
  }

  /** The corrected rule also always yields an https href and is stable under a second application. */
  lemma ForceHttpsPrefixStartsHttps(href: string)
    ensures StartsWith(Strip(ForceHttpsPrefix(href)), "https://")
    ensures ForceHttpsPrefix(ForceHttpsPrefix(href)) == ForceHttpsPrefix(href)
  {
    if NotYetHttps(href) {
      if StartsWith(href, "http://") {
        SchemeSurvivesStrip(href[7..]);
      } else {
        SchemeSurvivesStrip(href);
      }
    }
  }
}
