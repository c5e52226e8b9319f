/** Link discovery in `scrapeAndStoreArticles` (backend/controllers.ts): walk the blog listing
    pages along their `a.next` anchors, keep the hrefs that look like article links, and
    gather them into `allLinks` without duplicates, in the order they are first seen.

    A page is what the parsed document offers: the `href` of every anchor, in document order,
    and the `href` attribute of the `a.next` anchor when there is one. The site is a map from
    URL to page; a URL missing from it is a fetch that fails. The source loop has no bound, so
    the walk is given one: at most `maxPages` pages are fetched. */
module Crawl {
  import opened Common
  import opened Text

  /** The first listing page. */
  const BlogIndex: string := "https://beyondchats.com/blogs"

  /** A listing page: its anchors' hrefs and its `a.next` target. `next` is `None` when the
      page has no `a.next` anchor or that anchor has no `href` attribute. */
  datatype Page = Page(hrefs: seq<string>, next: Option<string>)

  type Site = map<string, Page>

  /** An href that names an article: it contains `/blogs/` and neither `/page/` nor `#`. */
  predicate IsArticleLink(href: string) {
    Contains(href, "/blogs/") && !Contains(href, "/page/") && !Contains(href, "#")
  }

  /** The article links of a page, in document order, duplicates kept. */
  function ArticleLinks(hrefs: seq<string>): (r: seq<string>)
    ensures |r| <= |hrefs|
  {
    if hrefs == [] then []
    else (if IsArticleLink(hrefs[0]) then [hrefs[0]] else []) + ArticleLinks(hrefs[1..])
  }

  /** The links kept are exactly the page's hrefs that look like article links. */
  lemma {:induction false} ArticleLinksKept(hrefs: seq<string>)
    ensures forall x :: x in ArticleLinks(hrefs) <==> x in hrefs && IsArticleLink(x)
    decreases |hrefs|
  {
    if hrefs != [] {
      ArticleLinksKept(hrefs[1..]);
      assert hrefs == [hrefs[0]] + hrefs[1..];
    }
  }

  /** `acc` after pushing, in order, each of `links` that it does not include yet. */
  function AppendNew(acc: seq<string>, links: seq<string>): (r: seq<string>)
    ensures acc <= r && |r| <= |acc| + |links|
    decreases |links|
  {
    if links == [] then acc
    else
      var a := AppendNew(acc, links[..|links| - 1]);
      var x := links[|links| - 1];
      if x in a then a else a + [x]
  }

  /** Pushing adds exactly the links not there yet and never a duplicate. */
  lemma {:induction false} AppendNewMembers(acc: seq<string>, links: seq<string>)
    ensures forall x :: x in AppendNew(acc, links) <==> x in acc || x in links
    ensures NoDup(acc) ==> NoDup(AppendNew(acc, links))
    decreases |links|
  {
    if links != [] {
      var init := links[..|links| - 1];
      AppendNewMembers(acc, init);
      assert links == init + [links[|links| - 1]];
    }
  }

  /** Pushing the links of two pages one after the other is pushing their concatenation. */
  lemma {:induction false} AppendNewConcat(acc: seq<string>, xs: seq<string>, ys: seq<string>)
    ensures AppendNew(acc, xs + ys) == AppendNew(AppendNew(acc, xs), ys)
    decreases |ys|
  {
    if ys == [] {
      assert xs + ys == xs;
    } else {
      var init := ys[..|ys| - 1];
      assert (xs + ys)[..|xs + ys| - 1] == xs + init;
      assert (xs + ys)[|xs + ys| - 1] == ys[|ys| - 1];
      AppendNewConcat(acc, xs, init);
    }
  }

  /** Position of the first occurrence of `x` in `xs`. */
  function FirstIndex(xs: seq<string>, x: string): (i: nat)
    requires x in xs
    ensures i < |xs| && xs[i] == x
    ensures forall k :: 0 <= k < i ==> xs[k] != x
  {
    if xs[0] == x then 0 else 1 + FirstIndex(xs[1..], x)
  }

  /** An element of a prefix is first found in the prefix. */
  lemma FirstIndexPrefix(xs: seq<string>, k: nat, x: string)
    requires k <= |xs| && x in xs[..k]
    ensures FirstIndex(xs, x) == FirstIndex(xs[..k], x)
  {
    assert forall m :: 0 <= m < k ==> xs[..k][m] == xs[m];
  }

  /** The links of `r` all occur in `links`, and each was first seen there before the next. */
  predicate InSeenOrder(r: seq<string>, links: seq<string>) {
    (forall v :: v in r ==> v in links) &&
    forall i, j :: 0 <= i < j < |r| && r[i] in links && r[j] in links ==>
      FirstIndex(links, r[i]) < FirstIndex(links, r[j])
  }

  /** Seen order with respect to a prefix of the links is seen order with respect to all. */
  lemma InSeenOrderExtend(r: seq<string>, links: seq<string>, n: nat)
    requires n <= |links| && InSeenOrder(r, links[..n])
    ensures InSeenOrder(r, links)
  {
    forall v | v in r ensures v in links && FirstIndex(links, v) == FirstIndex(links[..n], v) {
      FirstIndexPrefix(links, n, v);
    }
  }

  /** A link first seen at the very end may be placed after all the others. */
  lemma InSeenOrderPush(r: seq<string>, links: seq<string>)
    requires links != [] && InSeenOrder(r, links)
    requires forall v :: v in r ==> v in links[..|links| - 1]
    requires links[|links| - 1] !in links[..|links| - 1]
    ensures InSeenOrder(r + [links[|links| - 1]], links)
  {
    var n := |links| - 1;
    var x := links[n];
    var r' := r + [x];
    assert forall m :: 0 <= m < n ==> links[..n][m] == links[m];
    assert FirstIndex(links, x) == n;
    forall v | v in r ensures FirstIndex(links, v) < n {
      var k := FirstIndex(links[..n], v);
      assert links[k] == v;
    }
    forall i, j | 0 <= i < j < |r'| && r'[i] in links && r'[j] in links
      ensures FirstIndex(links, r'[i]) < FirstIndex(links, r'[j])
    {
      assert r'[i] == r[i];
      if j < |r| {
        assert r'[j] == r[j];
      }
    }
  }

  /** Deduplication keeps first-seen order: of two gathered links, the one placed earlier was
      seen earlier. */
  lemma {:induction false} FirstSeenOrder(links: seq<string>)
    ensures InSeenOrder(AppendNew([], links), links)
    decreases |links|
  {
    if links != [] {
      var n := |links| - 1;
      var init := links[..n];
      var a := AppendNew([], init);
      FirstSeenOrder(init);
      AppendNewMembers([], init);
      InSeenOrderExtend(a, links, n);
      if links[n] !in a {
        InSeenOrderPush(a, links);
      }
    }
  }

  /** Every article link of the pages, page by page, duplicates kept. */
  function Gathered(pages: seq<Page>): seq<string> {
    if pages == [] then []
    else Gathered(pages[..|pages| - 1]) + ArticleLinks(pages[|pages| - 1].hrefs)
  }

  /** Some page offers `x` among its hrefs. */
  predicate OnSomePage(x: string, pages: seq<Page>) {
    exists i :: 0 <= i < |pages| && x in pages[i].hrefs
  }

  /** The gathered links are exactly the article links of the pages. */
  lemma {:induction false} GatheredLinks(pages: seq<Page>)
    ensures forall x :: x in Gathered(pages) <==> IsArticleLink(x) && OnSomePage(x, pages)
  {
    if pages != [] {
      var n := |pages| - 1;
      GatheredLinks(pages[..n]);
      ArticleLinksKept(pages[n].hrefs);
      forall x ensures OnSomePage(x, pages) <==> OnSomePage(x, pages[..n]) || x in pages[n].hrefs {
        if OnSomePage(x, pages) && x !in pages[n].hrefs {
          var i :| 0 <= i < |pages| && x in pages[i].hrefs;
          assert pages[..n][i] == pages[i];
        }
        if OnSomePage(x, pages[..n]) {
          var i :| 0 <= i < n && x in pages[..n][i].hrefs;
          assert pages[..n][i] == pages[i];
        }
      }
    }
  }

  /** Why a walk stopped: a page without a next link, a page that could not be fetched, or
      the page bound. */
  datatype Stop = Finished | FetchFailed(url: string) | OutOfPages

  /** The pages a walk visits, in order, and why it stopped. */
  datatype Trail = Trail(pages: seq<Page>, stop: Stop)

  /** A page that ends the walk: no next link, or an empty one. */
  predicate IsLast(page: Page) {
    page.next.None? || page.next.value == ""
  }

  /** `pages` is the chain of pages reached from `url` by following next links. */
  predicate Follows(site: Site, url: string, pages: seq<Page>)
    decreases |pages|
  {
    pages == [] ||
    (url in site && site[url] == pages[0] &&
     (|pages| > 1 ==> site[url].next.Some? && Follows(site, site[url].next.value, pages[1..])))
  }

  /** The pages visited from `url`, fetching at most `fuel` of them. */
  function Walk(site: Site, url: string, fuel: nat): Trail
    decreases fuel
  {
    if url == "" then Trail([], Finished)
    else if fuel == 0 then Trail([], OutOfPages)
    else if url !in site then Trail([], FetchFailed(url))
    else
      var page := site[url];
      if page.next.None? then Trail([page], Finished)
      else
        var rest := Walk(site, page.next.value, fuel - 1);
        Trail([page] + rest.pages, rest.stop)
  }

  /** A walk fetches at most `fuel` pages, each reached from the one before by its next link;
      it goes on past every page but the last, stops normally only at a page without a next
      link (or at an empty start), and fails only on a URL the site cannot serve. */
  lemma {:induction false} WalkFollowsNext(site: Site, url: string, fuel: nat)
    ensures var t := Walk(site, url, fuel);
            |t.pages| <= fuel && Follows(site, url, t.pages) &&
            (forall i :: 0 <= i < |t.pages| - 1 ==> !IsLast(t.pages[i])) &&
            (t.stop == Finished && t.pages != [] ==> IsLast(t.pages[|t.pages| - 1])) &&
            (t.stop == Finished && t.pages == [] ==> url == "") &&
            (t.stop.FetchFailed? ==> t.stop.url !in site)
    decreases fuel
  {
    if url != "" && fuel > 0 && url in site && site[url].next.Some? {
      var page := site[url];
      var rest := Walk(site, page.next.value, fuel - 1);
      WalkFollowsNext(site, page.next.value, fuel - 1);
      assert ([page] + rest.pages)[1..] == rest.pages;
      assert forall i :: 1 <= i < |rest.pages| + 1 ==> ([page] + rest.pages)[i] == rest.pages[i - 1];
    }
  }

  /** A larger bound changes nothing once the walk stops on its own. */
  lemma {:induction false} WalkFuel(site: Site, url: string, fuel: nat, more: nat)
    requires fuel <= more && Walk(site, url, fuel).stop != OutOfPages
    ensures Walk(site, url, more) == Walk(site, url, fuel)
    decreases fuel
  {
    if url != "" && fuel > 0 && url in site && site[url].next.Some? {
      WalkFuel(site, site[url].next.value, fuel - 1, more - 1);
    }
  }

  /** A page whose next link points back to itself exhausts every bound: the walk visits that
      page once per allowed fetch and never finishes, which is why the loop needs one. */
  lemma {:induction false} SelfLinkExhausts(site: Site, url: string, fuel: nat)
    requires url != "" && url in site && site[url].next == Some(url)
    ensures Walk(site, url, fuel).stop == OutOfPages
    ensures |Walk(site, url, fuel).pages| == fuel
    decreases fuel
  {
    if fuel > 0 {
      SelfLinkExhausts(site, url, fuel - 1);
    }
  }

  /** `allLinks` at the end of the collection loop. */
  function Collected(site: Site, seed: string, maxPages: nat): seq<string> {
    AppendNew([], Gathered(Walk(site, seed, maxPages).pages))
  }

  /** The gathered links have no duplicates, all look like article links, and include every
      article link of every visited page. */
  lemma CollectedLinks(site: Site, seed: string, maxPages: nat)
    ensures NoDup(Collected(site, seed, maxPages))
    ensures forall x :: x in Collected(site, seed, maxPages) <==>
              IsArticleLink(x) && OnSomePage(x, Walk(site, seed, maxPages).pages)
  {
    var pages := Walk(site, seed, maxPages).pages;
    GatheredLinks(pages);
    AppendNewMembers([], Gathered(pages));
    assert NoDup<string>([]);
  }

  /** The inner loop over one page's links: push each one that `allLinks` does not include. */
  method PushNew(allLinks: seq<string>, links: seq<string>) returns (r: seq<string>)
    ensures r == AppendNew(allLinks, links)
  {
    r := allLinks;
    for i := 0 to |links|
      invariant r == AppendNew(allLinks, links[..i])
    {
      assert links[..i + 1][..i] == links[..i];
      if links[i] !in r {
        r := r + [links[i]];
      }
    }
    assert links[..|links|] == links;
  }

  /** Gathering a page in front of others gathers its links in front of theirs. */
  lemma {:induction false} GatheredCons(page: Page, rest: seq<Page>)
    ensures Gathered([page] + rest) == ArticleLinks(page.hrefs) + Gathered(rest)
    decreases |rest|
  {
    if rest == [] {
      assert [page] + rest == [page] && [page][..0] == [];
    } else {
      var n := |rest| - 1;
      assert ([page] + rest)[..|rest|] == [page] + rest[..n];
      assert ([page] + rest)[|rest|] == rest[n];
      GatheredCons(page, rest[..n]);
    }
  }

  /** The collection loop from `url` onwards, with `acc` collected so far and at most `fuel`
      more fetches: the links it ends with and why it stops. */
  function CollectFrom(site: Site, url: string, fuel: nat, acc: seq<string>): (seq<string>, Stop)
    decreases fuel
  {
    if url == "" then (acc, Finished)
    else if fuel == 0 then (acc, OutOfPages)
    else if url !in site then (acc, FetchFailed(url))
    else
      var page := site[url];
      var acc' := AppendNew(acc, ArticleLinks(page.hrefs));
      if page.next.None? then (acc', Finished)
      else CollectFrom(site, page.next.value, fuel - 1, acc')
  }

  /** The loop pushes, onto what it had, the article links of exactly the pages the walk
      visits, and stops for the same reason. */
  lemma {:induction false} CollectFromWalk(site: Site, url: string, fuel: nat, acc: seq<string>)
    ensures var t := Walk(site, url, fuel);
            CollectFrom(site, url, fuel, acc) == (AppendNew(acc, Gathered(t.pages)), t.stop)
    decreases fuel
  {
    if url != "" && fuel > 0 && url in site {
      var page := site[url];
      var links := ArticleLinks(page.hrefs);
      if page.next.None? {
        assert [page][..0] == [] && [] + links == links;
      } else {
        var rest := Walk(site, page.next.value, fuel - 1);
        CollectFromWalk(site, page.next.value, fuel - 1, AppendNew(acc, links));
        GatheredCons(page, rest.pages);
        AppendNewConcat(acc, links, Gathered(rest.pages));
      }
    }
  }

  /** The collection loop: fetch a page, push its new article links, follow its next link.
      A fetch that fails ends the loop with `FetchFailed`; in the source it throws. */
  method CollectLinks(site: Site, seed: string, maxPages: nat) returns (allLinks: seq<string>, stop: Stop)
    ensures stop == Walk(site, seed, maxPages).stop
    ensures allLinks == Collected(site, seed, maxPages)
  {
    CollectFromWalk(site, seed, maxPages, []);
    ghost var goal := CollectFrom(site, seed, maxPages, []);
    var url := seed;
    var fuel := maxPages;
    allLinks := [];
    while url != ""
      invariant CollectFrom(site, url, fuel, allLinks) == goal
      decreases fuel
    {
      if fuel == 0 {
        return allLinks, OutOfPages;
      }
      if url !in site {
        return allLinks, FetchFailed(url);
      }
      var page := site[url];
      allLinks := PushNew(allLinks, ArticleLinks(page.hrefs));
      if page.next.None? {
        return allLinks, Finished;
      }
      url := page.next.value;
      fuel := fuel - 1;
    }
    stop := Finished;
  }

  /** Pushing `a, b, b, c` into an empty list keeps `a, b, c`. */
  lemma DedupExample(a: string, b: string, c: string)
    requires a != b && b != c && a != c
    ensures AppendNew([], [a, b, b, c]) == [a, b, c]
  {
    assert [a, b, b, c][..3] == [a, b, b];
    assert [a, b, b][..2] == [a, b];
    assert [a, b][..1] == [a];
    assert [a][..0] == [];
    assert AppendNew([], [a]) == [a];
    assert AppendNew([], [a, b]) == [a, b];
    assert AppendNew([], [a, b, b]) == [a, b];
  }

  /** Two listing pages: the first offers article links `a` and `b` and points to the second,
      which offers `b` and `c` and has no next link. The walk collects `a`, `b`, `c` in that
      order, and the last two of them are `b` and `c`. */
  lemma TwoPageWalk(a: string, b: string, c: string)
    requires IsArticleLink(a) && IsArticleLink(b) && IsArticleLink(c)
    requires a != b && b != c && a != c
    ensures var site := map["p1" := Page([a, b], Some("p2")), "p2" := Page([b, c], None)];
            Walk(site, "p1", 2).stop == Finished &&
            Collected(site, "p1", 2) == [a, b, c] &&
            LastN(Collected(site, "p1", 2), 2) == [b, c]
  {
    var site := map["p1" := Page([a, b], Some("p2")), "p2" := Page([b, c], None)];
    var p1, p2 := Page([a, b], Some("p2")), Page([b, c], None);
    assert Walk(site, "p2", 1) == Trail([p2], Finished);
    assert Walk(site, "p1", 2) == Trail([p1, p2], Finished);
    assert ArticleLinks([c]) == [c] by {
      assert [c][1..] == [];
    }
    assert ArticleLinks([b]) == [b] by {
      assert [b][1..] == [];
    }
    assert ArticleLinks([b, c]) == [b, c] by {
      assert [b, c][1..] == [c];
    }
    assert ArticleLinks([a, b]) == [a, b] by {
      assert [a, b][1..] == [b];
    }
    assert Gathered([p1, p2]) == [a, b, b, c] by {
      assert [p1, p2][..1] == [p1];
      assert [p1][..0] == [];
      assert Gathered([p1]) == [] + ArticleLinks([a, b]);
      assert Gathered([p1, p2]) == Gathered([p1]) + ArticleLinks([b, c]);
    }
    DedupExample(a, b, c);
  }
}
