# lobo-line crawler and sitemap builders, modelled in Dafny

This project models the sequential core of the lobo-line scraping scripts:

- the per-seed crawl walker `crawl_subdomain` of `crawl_urls.py`: the
  `while to_visit:` loop over an unordered frontier, the plain-suffix scope
  test on the host, the `scheme://netloc + path` cleaning, the fail-soft
  `fetch`, and the union of the per-seed result sets in `main`;
- `filter_sublinks` of `scripts/removebadsublinks.py`: four rejection tests
  followed by `lstrip('/')`;
- the link list, the page list and the `zip(links, pages)` pairing of
  `scrape_pages` (`backend/sitemapper.py`) and of the fresh-scrape branch of
  `generate_embedding_manifest` (`sitemapper.py`);
- the "force https" rule both `write_sitemap` functions apply to a
  department's href.

Layout, one module per file:

| file | module | contents |
|---|---|---|
| `options.dfy` | `Options` | `Option` |
| `py_str.dfy` | `PyStr` | `startswith` (also with a tuple), `endswith`, `in`, `lstrip`/`rstrip` with a character set, `strip` on the characters `str.isspace()` accepts |
| `seqs.dfy` | `Seqs` | list comprehensions (`Filter`, `Map`), `zip`, and `Positions`, the indices a filter keeps |
| `urls.dfy` | `Urls` | the `urlparse` record, what `urlparse` guarantees of it (`WellFormed`), the crawler's cleaned form of it, and a splitter that reads the cleaned form back as `urlparse` does |
| `crawl.dfy` | `Crawl` | the oracles, one loop turn `Step`, the loop `Walk`, `CrawlSubdomain`, `Merge`, `CrawlAll` |
| `sublinks.dfy` | `Sublinks` | `FilterSublinks` |
| `sitemap.dfy` | `Sitemap` | link lists, page lists, pairing, `ForceHttps`, and the corrected pairing and https rule |

The network, BeautifulSoup, `urljoin` and `urlparse` are function-valued
fields of a `Web` record (`get`, `anchors`, `join`, `parse`). They are total
functions: the same URL always fetches the same page, and `join` and `parse`
always return. The exceptions `urljoin` and `urlparse` can raise are not
modelled (see "## Left out"). The element `set.pop()` returns is an arbitrary member of the
frontier. `Step` is a pure function of the walker state and that element, and
`Walk` picks it with `:|`. Its contract holds for every choice.

`Walk` terminates when the URLs reachable from the seed lie in some finite set
`universe` that holds the seed and is closed under taking links. `universe` is
a ghost parameter and only bounds the loop's `decreases` measure.

`CrawlSubdomain` returns exactly the set of links found on pages reachable
from the seed (`Discovered`). The seed itself is in the result only when some
reachable page links to it. At exit, `visited` equals the seed plus `urls`,
and it equals the reachable set.

The sitemap builders do not scrape. The outcome of scraping each link is an
input, one `Option<string>` per link in link order:

- `None` when `scrape_page` returned `None` (backend), or when the request
  raised (root builder);
- `Some(text)` otherwise.

The backend keeps a page only when its text is non-empty (`if page_content:`).
The root builder keeps every page whose request did not raise.

Some behaviours of the code a reader may not expect:

- The scope test is `netloc.endswith(seed_netloc)` with no dot boundary.
  `badexample.com` is in scope for the seed `example.com`
  (`Crawl.ScopeExamples`).
- Each href is resolved against the seed (`urljoin(base_url, href)`), not
  against the page it was found on.
- The result is `urls`, which starts empty, not the visited set.
- An href such as `#frag` is not rejected: it resolves to the seed's own page,
  whose cleaned form is in scope and joins `urls`.
- In a sequential walk the frontier and `visited` stay disjoint, so the
  `if current_url in visited: continue` guard never fires (`Crawl.StepInv`).

## Model

| member | source | states |
|---|---|---|
| `Crawl.Fetch` | crawl_urls.py:8-18 | The body comes back only on status 200. Any other status and any exception yield the empty string. |
| `Crawl.InScopeIff` | crawl_urls.py:41 | A host is in scope exactly when it is some string followed by the seed's host. |
| `Crawl.InScopeAnyPrefix` | crawl_urls.py:41 | Any host that ends with the seed's host is in scope, whatever precedes it: there is no dot boundary. |
| `Crawl.ScopeExamples` | crawl_urls.py:41 | For seed host `example.com`, the hosts `example.com`, `sub.example.com` and `badexample.com` are in scope, and `example.com.evil.net` is not. |
| `Urls.CleanIdempotent` | crawl_urls.py:42 | Cleaning a cleaned URL changes nothing: reading the cleaned string of a well-formed parsed URL (one with a lower-case scheme `urlsplit` accepts; a `;` in the last path segment stays in the path unless the scheme is in `urllib.parse.uses_params`) back gives a record with no params, query or fragment, and the same cleaned string. |
| `Urls.SplitCleanedRoundTrip` | crawl_urls.py:42 | Reading the cleaned string of a well-formed parsed URL back gives its scheme, host and path, with empty params, query and fragment. |
| `Urls.SchemeRequired` | crawl_urls.py:42 | A string that starts with `:`, such as the cleaned form `://a.edu/x` of a protocol-relative URL, has no scheme and is not read as having a host. |
| `Urls.SplitCleanedSound` | crawl_urls.py:42 | Every string the splitter accepts is the cleaned string of the well-formed, already-clean record it returns: its scheme is one `urlsplit` accepts, and nothing in it would be split off as params, query or fragment. |
| `Urls.CleanedKeyIff` | crawl_urls.py:42-45 | Two well-formed parsed URLs get the same cleaned key exactly when they agree on scheme, host and path: params, query and fragment are ignored. |
| `Crawl.LinksAreScopedAndClean` | crawl_urls.py:37-43 | Every link taken from a page comes from one of its hrefs. That href, resolved against the seed, has an in-scope host, and the link is its cleaned form. |
| `Crawl.ScanHrefs` | crawl_urls.py:37-45 | The href loop adds all of the page's in-scope cleaned links to `urls`, and adds to `to_visit` exactly those not yet visited. |
| `Crawl.Step` | crawl_urls.py:28-45 | One turn on a popped URL. An already visited URL is only removed from the frontier. Otherwise the URL is marked visited and fetched once, its links join `urls`, and its unvisited links join the frontier. |
| `Crawl.StepMonotone` | crawl_urls.py:32-43 | `visited`, `urls` and the log of fetches never shrink. |
| `Crawl.StepDeadEnd` | crawl_urls.py:33-35 | An empty fetch leaves the URL visited. It adds no links and changes nothing else but the frontier. |
| `Crawl.StepEnqueuesUnvisited` | crawl_urls.py:44-45 | A URL that newly joins the frontier is a found link that is not visited at that moment. |
| `Crawl.StepProgress` | crawl_urls.py:28-35 | Every turn either grows `visited` by one, or leaves it unchanged and shrinks the frontier by one. |
| `Crawl.StepFetchedOnce` | crawl_urls.py:29-33 | The fetch log never holds a URL twice and always holds exactly the visited URLs. |
| `Crawl.StepInv` | crawl_urls.py:28-45 | The popped URL is never already visited, and the loop invariant survives a turn. The invariant covers: fetched once; `urls` is the set of links of visited pages; every link of a visited page is visited or queued; frontier and visited are disjoint; everything seen is reachable. |
| `Crawl.ExitCharacterisation` | crawl_urls.py:24-46 | With an empty frontier, `visited` equals the seed plus `urls`, it is closed under links, and it equals the reachable set. `urls` is exactly the set of discovered links. |
| `Crawl.ResultScopedAndClean` | crawl_urls.py:37-43 | Every URL of a result comes from an href on a page reachable from the seed. That href, resolved against the seed and parsed, has an in-scope host, and the URL is its cleaned form. |
| `Crawl.Walk` | crawl_urls.py:24-45 | The loop ends when the reachable URLs lie in a finite closed set. It ends with an empty frontier and the invariant holding, whatever order `set.pop()` picks. |
| `Crawl.CrawlSubdomain` | crawl_urls.py:20-46 | The result is exactly the links found on pages reachable from the seed. A URL is reachable exactly when it is the seed or in the result. |
| `Crawl.Merge` | crawl_urls.py:54-63 | A URL is in the merged set exactly when some per-seed result contains it. |
| `Crawl.MergeOrderIndependent` | crawl_urls.py:57-63 | The merged set does not depend on the order of the per-seed results. |
| `Crawl.CrawlAll` | crawl_urls.py:54-63 | The merged output holds exactly the URLs that some seed's walk discovers. |
| `Sublinks.FilterSublinks` | scripts/removebadsublinks.py:12-21 | The output is no longer than the input, and no output element starts with `/`. |
| `Sublinks.FilterSublinksSubsequence` | scripts/removebadsublinks.py:14-21 | The output is the slash-stripped image of the input at strictly increasing indices. Those indices are exactly the ones whose sublink passes the tests. |
| `Sublinks.FilterSublinksAppend` | scripts/removebadsublinks.py:14-21 | Filtering works sublink by sublink: it distributes over concatenation. |
| `Sublinks.FilterSublinksSingle` | scripts/removebadsublinks.py:14-20 | A single sublink yields its slash-stripped self when it passes the tests, and nothing otherwise. |
| `Sublinks.RejectedContributesNothing` | scripts/removebadsublinks.py:16-20 | A rejected sublink contributes nothing, wherever it sits in the list. |
| `Sublinks.RejectionRules` | scripts/removebadsublinks.py:13-20 | These are rejected: a sublink starting with any of the eight invalid starts, any sublink containing `unm.edu`, a whitespace-only sublink, and any sublink of length at most one. |
| `Sublinks.FirstCharClearsInvalidStarts` | scripts/removebadsublinks.py:13-17 | A sublink whose first character is not one of `#`, `m`, `h`, `w`, `j`, `t`, `{` does not start with an invalid start. |
| `PyStr.StripEmptyIff` | scripts/removebadsublinks.py:19 | `sublink.strip()` is falsy exactly when every character of the sublink is one `str.isspace()` accepts. |
| `Sublinks.TestsPrecedeStripping` | scripts/removebadsublinks.py:15-20 | The tests see the sublink before its slashes go: `/#top` yields `#top`, and `//` yields the empty string. |
| `Sublinks.NotIdempotent` | scripts/removebadsublinks.py:15-20 | Filtering the output of `["/#top"]` again drops it, so the filter is not idempotent. |
| `Sitemap.BuildLinks` | backend/sitemapper.py:54-61 | The link list has one entry per site plus one per sublink. The same holds at sitemapper.py:31-35. |
| `Sitemap.BackendLinksLayout` | backend/sitemapper.py:54-61 | Site `k` starts at the count of its predecessors' links, with its `url` first. The link of each sublink follows in order, and is `urljoin(url + '/', sublink)`. |
| `Sitemap.RootLinksLayout` | sitemapper.py:31-35 | The same layout, with each sublink's link literally `url + "/" + sublink`. |
| `Sitemap.RootLinksDoNotResolve` | sitemapper.py:35 | A `../` sublink is glued on as is: `https://a.edu` with `../x` gives `https://a.edu/../x`. |
| `Sitemap.BackendPagesSpec` | backend/sitemapper.py:62-66 | `pages` holds exactly the non-empty scrape texts, each the text of its own link's scrape, in link order. |
| `Sitemap.RootPagesSpec` | sitemapper.py:36-49 | `pages` holds one text per request that did not raise, in link order, empty texts included. |
| `Sitemap.BackendPairing` | backend/sitemapper.py:68 | `links_pages` has `len(pages)` entries. Entry `i` pairs `links[i]` with the page of the `i`-th kept link. These agree exactly when no scrape up to link `i` returned `None` or an empty text. |
| `Sitemap.RootPairing` | sitemapper.py:51 | The same positional pairing for the root builder, where only a raised request loses a page. |
| `Sitemap.ZipMisalignsAfterFailure` | backend/sitemapper.py:62-68 | Take links `a`, `b` where only `b`'s scrape succeeds with `B`. The one pair written is `a` with `B`. |
| `Sitemap.RootZipMisalignsAfterFailure` | sitemapper.py:36-51 | Take links `a`, `b` where the request for `a` raises and `b` gives `B`. The one pair written is `a` with `B`. |
| `Sitemap.PairOwnPagesAligned` | backend/sitemapper.py:68 | The corrected pairing holds exactly the kept links, each with the text of its own scrape. |
| `Sitemap.PairOwnPagesExample` | backend/sitemapper.py:68 | On the same input the corrected pairing writes `b` with `B`. |
| `Sitemap.ForceHttpsShape` | backend/sitemapper.py:127-128 | An href whose stripped form starts with `https://` is kept. Any other href becomes `https://` plus the href with its whole leading run of `h`, `t`, `p`, `:`, `/` removed. The same rule is at sitemapper.py:104-105. |
| `Sitemap.ForceHttpsStartsHttps` | backend/sitemapper.py:127-128 | The result's stripped form always starts with `https://`. |
| `Sitemap.ForceHttpsIdempotent` | sitemapper.py:104-105 | Applying the rule twice is applying it once. |
| `Sitemap.ForceHttpsEatsHost` | backend/sitemapper.py:128 | `http://hpc.unm.edu` becomes `https://c.unm.edu`. |
| `Sitemap.ForceHttpsPrefixKeepsHost` | backend/sitemapper.py:128 | The corrected rule turns `http://` + rest into `https://` + rest. An href with neither scheme is prefixed with `https://`. |
| `Sitemap.ForceHttpsPrefixStartsHttps` | backend/sitemapper.py:127-128 | The corrected rule also yields an href whose stripped form starts with `https://`, and it is idempotent. |

## Left out

- Network I/O (`aiohttp`, `requests`, timeouts, `raise_for_status`) is the `get` oracle in the crawler and the per-link scrape outcomes in the sitemap builders.
- BeautifulSoup and lxml parsing are left out: `find_all('a', href=True)` is the `anchors` oracle, and `get_text` is folded into the scrape outcome.
- `Crawl.CrawlSubdomain`: the `join` and `parse` oracles always return, but `urljoin` and `urlparse` raise `ValueError` on a host with an unbalanced `[` (such as `http://[bad`). At crawl_urls.py:39-40 nothing catches it, so one such href on a crawled page ends the crawl of that seed. `asyncio.gather` then re-raises it, and `main` stops before writing `urls.txt`. The model returns a result instead.
- `Crawl.CrawlAll`: for the same reason, the merged result is not modelled as lost when one seed's crawl raises.
- `Sitemap.BackendLinksLayout`: `urljoin(base_url + '/', sublink)` at backend/sitemapper.py:60 raises on a sublink such as `ftp://[x`, which passes `filter_sublinks`, and `scrape_pages` stops there. The model builds the list instead.
- `urljoin` and `urlparse` are the `join` and `parse` oracles. Their reference resolution (section 5.2 of RFC 3986) is not modelled. `Urls.WellFormed` states the only facts about parsed records the cleaning lemmas rely on. The cleaning lemmas do not cover records with an empty scheme, such as `urlparse('//a.edu/x')`, whose cleaned string `://a.edu/x` `urlparse` reads as a bare path.
- `asyncio.gather` across seeds (crawl_urls.py:56-61) is modelled as a sequential loop, because the seeds share no state.
- The oracles are deterministic: the same URL always gives the same page. A site that changes between fetches is not modelled.
- `Crawl.Walk`: termination is proved only when the reachable URLs stay inside a finite closed set, passed as a ghost parameter. A site with infinitely many distinct reachable URLs is not covered.
- File and JSON I/O are left out: `urls.txt`, `links_pages.json`, `site_titles_urls.json`, the cached branch at sitemapper.py:25-29, and the module-level read and rewrite in scripts/removebadsublinks.py:5-9, 23-28.
- The rest of `write_sitemap` is left out: the directory request, the department list traversal, the status check on the forced href, and the `strip` and filter of its sublinks. Only the https rule is modelled.
- `PyStr.Whitespace` lists the 29 characters `str.isspace()` accepts in current Python versions. A Unicode database that adds or removes whitespace characters is not modelled.
- `Sitemap.ForceHttpsPrefixKeepsHost`: the corrected rule turns a protocol-relative `//x.unm.edu` into `https:////x.unm.edu`, where the character strip of the source happens to give `https://x.unm.edu`. The corrected rule is not refined for that case.
- `tqdm` progress bars and `print` logging are left out.
- `rag.py`, `select_relevant_urls.py`, `backend/config.py`, `app.py`, `backend/main.py` and the React app are not part of this model.

## Findings

| source | as written | input that shows it | evidently intended | confidence | as-written member | corrected member |
|---|---|---|---|---|---|---|
| backend/sitemapper.py:68 | `zip(links, pages)` pairs by position, but `pages` has dropped the failed scrapes | links `a`, `b`; the scrape of `a` fails and `b` gives `B`; the file pairs `a` with `B` | each link paired with the text of its own scrape | high; not executed | `Sitemap.ZipMisalignsAfterFailure` | `Sitemap.PairOwnPagesAligned` |
| sitemapper.py:51 | the same positional `zip` after a raised request drops a page | links `a`, `b`; the request for `a` raises; `a` is paired with `b`'s page | each link paired with the text of its own page | high; not executed | `Sitemap.RootZipMisalignsAfterFailure` | `Sitemap.PairOwnPagesAligned` |
| backend/sitemapper.py:128 | `lstrip("http://")` strips any leading run of the characters `h`, `t`, `p`, `:`, `/`, not the prefix `http://` | `http://hpc.unm.edu` becomes `https://c.unm.edu` | replace an `http://` prefix with `https://` and keep the host | high; not executed | `Sitemap.ForceHttpsEatsHost` | `Sitemap.ForceHttpsPrefixKeepsHost` |
