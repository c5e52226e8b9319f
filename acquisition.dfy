/** `scrapeAndStoreArticles` and `getStatus` (backend/controllers.ts): collect the article
    links, keep the five oldest (the last five collected), and insert each one that is not
    stored yet and whose extracted text is long enough.

    What Readability extracts from an article page is given as a map from URL to its
    `content`: a URL missing from the map is a fetch that fails, which rejects the whole run;
    `None` is a page Readability finds no content in. */
module Acquisition {
  import opened Common
  import opened Text
  import opened Html
  import opened Crawl
  import opened Titles
  import opened Store

  /** Shortest extracted text, in UTF-16 code units, that is stored. */
  const MinContentLength: nat := 300

  /** How many of the collected links are considered: the last ones. */
  const OldestCount: nat := 5

  /** What Readability extracts from each fetchable article page. */
  type Readable = map<string, Option<string>>

  /** What `extractArticleContent` returns for each fetchable article page. */
  type Texts = map<string, string>

  /** `extractArticleContent` once the page is fetched: `""` when Readability finds no
      content, the cleaned content otherwise. */
  function ExtractedText(content: Option<string>): string {
    if content.None? || content.value == "" then "" else CleanHtml(content.value)
  }

  /** The extracted text of every fetchable page. */
  function ExtractAll(readable: Readable): (texts: Texts)
    ensures texts.Keys == readable.Keys
  {
    map url | url in readable :: ExtractedText(readable[url])
  }

  /** The length gate: non-empty and at least `MinContentLength` code units long. */
  predicate LongEnough(content: string) {
    content != "" && Utf16Length(content) >= MinContentLength
  }

  /** How a run ends. The source has no outcome value: a failed fetch rejects its promise.
      The model's crawl fetches at most a given number of pages and reports a walk that
      needs more; a walk whose next links cycle needs more than any bound. */
  datatype Outcome =
    | Completed
    | ArticleFetchFailed(url: string)
    | ListingFetchFailed(url: string)
    | PageLimitReached

  /** The table and counter after a run, and how it ended. */
  datatype Acquired = Acquired(rows: seq<Article>, nextId: nat, outcome: Outcome)

  /** The row inserted for a link and its extracted text. */
  function NewArticle(id: nat, link: string, content: string): (row: Article)
    ensures row.id == id && !row.isUpdated && row.sourceUrl == Some(link)
  {
    NewRow(id, DeriveTitle(link), content, link)
  }

  /** The insertion loop over the chosen links, in order. */
  function Acquire(rows: seq<Article>, nextId: nat, links: seq<string>, texts: Texts): Acquired
    decreases |links|
  {
    if links == [] then Acquired(rows, nextId, Completed)
    else
      var link := links[0];
      if HasSource(rows, link) then Acquire(rows, nextId, links[1..], texts)
      else if link !in texts then Acquired(rows, nextId, ArticleFetchFailed(link))
      else
        var content := texts[link];
        if !LongEnough(content) then Acquire(rows, nextId, links[1..], texts)
        else Acquire(rows + [NewArticle(nextId, link, content)], nextId + 1, links[1..], texts)
  }

  /** A row inserted for `link`: it had no row of that source before, its text passed the
      gate, its title comes from the link, and it is not updated. */
  predicate InsertedFor(row: Article, link: string, before: seq<Article>, texts: Texts) {
    !HasSource(before, link) && link in texts && LongEnough(texts[link]) &&
    row == NewArticle(row.id, link, texts[link])
  }

  /** Existing rows are kept as they are, at most one row is inserted per link, and the
      counter grows by the number inserted. */
  lemma {:induction false} AcquireGrows(rows: seq<Article>, nextId: nat, links: seq<string>, texts: Texts)
    ensures var a := Acquire(rows, nextId, links, texts);
            rows <= a.rows && |a.rows| - |rows| <= |links| && a.nextId == nextId + (|a.rows| - |rows|)
    decreases |links|
  {
    if links != [] {
      var link := links[0];
      if !HasSource(rows, link) && link in texts && LongEnough(texts[link]) {
        var rows' := rows + [NewArticle(nextId, link, texts[link])];
        AcquireGrows(rows', nextId + 1, links[1..], texts);
      } else {
        AcquireGrows(rows, nextId, links[1..], texts);
      }
    }
  }

  /** The `k`-th inserted row: numbered `nextId + k`, not updated, and inserted for one of
      the links. */
  predicate NewRowOk(row: Article, k: nat, before: seq<Article>, nextId: nat, links: seq<string>, texts: Texts) {
    row.id == nextId + k && !row.isUpdated &&
    exists l :: l in links && InsertedFor(row, l, before, texts)
  }

  /** The rows of `after` past `before` are the rows inserted for the links. */
  predicate NewRowsFor(after: seq<Article>, before: seq<Article>, nextId: nat, links: seq<string>, texts: Texts)
    requires |before| <= |after|
  {
    forall i :: |before| <= i < |after| ==> NewRowOk(after[i], i - |before|, before, nextId, links, texts)
  }

  /** One insertion in front of rows that were inserted for the remaining links. */
  lemma NewRowsShift(after: seq<Article>, rows: seq<Article>, nextId: nat, links: seq<string>, texts: Texts)
    requires links != [] && !HasSource(rows, links[0]) && links[0] in texts && LongEnough(texts[links[0]])
    requires var rows' := rows + [NewArticle(nextId, links[0], texts[links[0]])];
             rows' <= after && NewRowsFor(after, rows', nextId + 1, links[1..], texts)
    ensures |rows| <= |after| && NewRowsFor(after, rows, nextId, links, texts)
  {
    var link := links[0];
    var row := NewArticle(nextId, link, texts[link]);
    var rows' := rows + [row];
    assert after[|rows|] == rows'[|rows|] == row;
    assert InsertedFor(row, link, rows, texts);
    assert forall x :: x in links[1..] ==> x in links;
    forall i | |rows| <= i < |after|
      ensures NewRowOk(after[i], i - |rows|, rows, nextId, links, texts)
    {
      if i > |rows| {
        assert NewRowOk(after[i], i - |rows'|, rows', nextId + 1, links[1..], texts);
        var l :| l in links[1..] && InsertedFor(after[i], l, rows', texts);
        HasSourceAppend(rows, row, l);
        assert InsertedFor(after[i], l, rows, texts);
      } else {
        assert link in links;
      }
    }
  }

  /** Each inserted row was inserted for one of the links: numbered in turn, for a link
      without a row of that source, with text that passed the gate, and not updated. */
  lemma {:induction false} AcquireNewRows(rows: seq<Article>, nextId: nat, links: seq<string>, texts: Texts)
    ensures var a := Acquire(rows, nextId, links, texts);
            |rows| <= |a.rows| && NewRowsFor(a.rows, rows, nextId, links, texts)
    decreases |links|
  {
    AcquireGrows(rows, nextId, links, texts);
    if links != [] {
      var link := links[0];
      var tail := links[1..];
      if !HasSource(rows, link) && link in texts && LongEnough(texts[link]) {
        var rows' := rows + [NewArticle(nextId, link, texts[link])];
        AcquireNewRows(rows', nextId + 1, tail, texts);
        AcquireGrows(rows', nextId + 1, tail, texts);
        NewRowsShift(Acquire(rows', nextId + 1, tail, texts).rows, rows, nextId, links, texts);
      } else {
        AcquireNewRows(rows, nextId, tail, texts);
        assert forall l :: l in tail ==> l in links;
      }
    }
  }

  /** Every link has a row of its source or a text that fails the gate, and has a row
      exactly when it had one before or its text passes the gate. */
  predicate Covered(after: seq<Article>, before: seq<Article>, links: seq<string>, texts: Texts) {
    forall l :: l in links ==>
      (HasSource(after, l) || (l in texts && !LongEnough(texts[l]))) &&
      (HasSource(after, l) <==> HasSource(before, l) || (l in texts && LongEnough(texts[l])))
  }

  /** A completed run covers every chosen link. */
  lemma {:induction false} AcquireCovers(rows: seq<Article>, nextId: nat, links: seq<string>, texts: Texts)
    requires Acquire(rows, nextId, links, texts).outcome == Completed
    ensures Covered(Acquire(rows, nextId, links, texts).rows, rows, links, texts)
    decreases |links|
  {
    if links != [] {
      var link := links[0];
      var tail := links[1..];
      if HasSource(rows, link) {
        var a := Acquire(rows, nextId, tail, texts);
        AcquireCovers(rows, nextId, tail, texts);
        AcquireGrows(rows, nextId, tail, texts);
        SourcesKept(rows, a.rows, link);
      } else if !LongEnough(texts[link]) {
        var a := Acquire(rows, nextId, tail, texts);
        AcquireCovers(rows, nextId, tail, texts);
        if link !in tail {
          AcquireNewRows(rows, nextId, tail, texts);
          AcquireGrows(rows, nextId, tail, texts);
          NotInsertedElsewhere(a.rows, rows, nextId, tail, texts, link);
        }
      } else {
        var rows' := rows + [NewArticle(nextId, link, texts[link])];
        var a := Acquire(rows', nextId + 1, tail, texts);
        AcquireCovers(rows', nextId + 1, tail, texts);
        AcquireGrows(rows', nextId + 1, tail, texts);
        HasSourceAppend(rows, rows'[|rows|], link);
        SourcesKept(rows', a.rows, link);
        forall l | l in tail ensures HasSource(rows', l) <==> HasSource(rows, l) || l == link {
          HasSourceAppend(rows, rows'[|rows|], l);
        }
      }
    }
  }

  /** A link none of whose rows existed and that was not among the links gets no row. */
  lemma NotInsertedElsewhere(after: seq<Article>, rows: seq<Article>, nextId: nat, links: seq<string>, texts: Texts, url: string)
    requires rows <= after && NewRowsFor(after, rows, nextId, links, texts)
    requires !HasSource(rows, url) && url !in links
    ensures !HasSource(after, url)
  {
    forall i | 0 <= i < |after| ensures after[i].sourceUrl != Some(url) {
      if i < |rows| {
        assert rows[i] == after[i];
      } else {
        assert NewRowOk(after[i], i - |rows|, rows, nextId, links, texts);
        var l :| l in links && InsertedFor(after[i], l, rows, texts);
      }
    }
  }

  /** Rows kept at the front keep their sources. */
  lemma SourcesKept(before: seq<Article>, after: seq<Article>, url: string)
    requires before <= after && HasSource(before, url)
    ensures HasSource(after, url)
  {
    var i :| 0 <= i < |before| && before[i].sourceUrl == Some(url);
    assert after[i] == before[i];
  }

  /** Running again over the table a completed run left, with the same pages, inserts
      nothing. */
  lemma {:induction false} AcquireIdempotent(rows: seq<Article>, nextId: nat, links: seq<string>, texts: Texts)
    requires forall l :: l in links ==>
               HasSource(rows, l) || (l in texts && !LongEnough(texts[l]))
    ensures Acquire(rows, nextId, links, texts) == Acquired(rows, nextId, Completed)
    decreases |links|
  {
    if links != [] {
      assert links[0] in links;
      assert forall l :: l in links[1..] ==> l in links;
      AcquireIdempotent(rows, nextId, links[1..], texts);
    }
  }

  /** Running again over the table any run left, with the same pages, ends the same way and
      inserts nothing: the links handled before are stored or fail the gate, and a fetch
      that failed fails again at the same link. */
  lemma {:induction false} AcquireRerun(rows: seq<Article>, nextId: nat, links: seq<string>, texts: Texts)
    ensures var a := Acquire(rows, nextId, links, texts);
            Acquire(a.rows, a.nextId, links, texts) == a
    decreases |links|
  {
    if links != [] {
      var link := links[0];
      var tail := links[1..];
      if HasSource(rows, link) {
        AcquireRerun(rows, nextId, tail, texts);
        AcquireGrows(rows, nextId, tail, texts);
        SourcesKept(rows, Acquire(rows, nextId, tail, texts).rows, link);
      } else if link !in texts {
      } else if !LongEnough(texts[link]) {
        AcquireRerun(rows, nextId, tail, texts);
      } else {
        var rows' := rows + [NewArticle(nextId, link, texts[link])];
        AcquireRerun(rows', nextId + 1, tail, texts);
        AcquireGrows(rows', nextId + 1, tail, texts);
        HasSourceAppend(rows, rows'[|rows|], link);
        SourcesKept(rows', Acquire(rows', nextId + 1, tail, texts).rows, link);
      }
    }
  }

  /** The table stays well formed. */
  lemma AcquireWellFormed(rows: seq<Article>, nextId: nat, links: seq<string>, texts: Texts)
    requires WellFormed(rows, nextId)
    ensures WellFormed(Acquire(rows, nextId, links, texts).rows, Acquire(rows, nextId, links, texts).nextId)
  {
    var a := Acquire(rows, nextId, links, texts);
    AcquireGrows(rows, nextId, links, texts);
    AcquireNewRows(rows, nextId, links, texts);
    forall i | |rows| <= i < |a.rows|
      ensures a.rows[i].id == nextId + (i - |rows|) && !a.rows[i].isUpdated
    {
      assert NewRowOk(a.rows[i], i - |rows|, rows, nextId, links, texts);
    }
    WellFormedExtend(rows, nextId, a.rows, a.nextId);
  }

  /** If no two rows shared a source before, none do after: a row is inserted only for a
      source that has none. */
  lemma {:induction false} AcquireUniqueSources(rows: seq<Article>, nextId: nat, links: seq<string>, texts: Texts)
    requires UniqueSources(rows)
    ensures UniqueSources(Acquire(rows, nextId, links, texts).rows)
    decreases |links|
  {
    if links != [] {
      var link := links[0];
      assert links[0..] == links;
      if HasSource(rows, link) || (link in texts && !LongEnough(texts[link])) {
        AcquireSkip(rows, nextId, links, 0, texts);
        AcquireUniqueSources(rows, nextId, links[1..], texts);
      } else if link in texts {
        var row := NewArticle(nextId, link, texts[link]);
        UniqueSourcesAppend(rows, row);
        AcquireInsert(rows, nextId, links, 0, texts, rows + [row]);
        AcquireUniqueSources(rows + [row], nextId + 1, links[1..], texts);
      }
    }
  }

  /** The text `extractArticleContent` returns is clean: no tag, never three newlines in a
      row, no space at either end. */
  lemma ExtractedTextClean(readable: Readable, url: string)
    requires url in readable
    ensures var t := ExtractAll(readable)[url]; TagFree(t) && NoTripleNewline(t) && Trimmed(t)
  {
  }

  /** A whole run: collect the links from the blog index, then acquire the last five. */
  function Scrape(rows: seq<Article>, nextId: nat, site: Site, texts: Texts, maxPages: nat): Acquired {
    match Walk(site, BlogIndex, maxPages).stop
    case FetchFailed(url) => Acquired(rows, nextId, ListingFetchFailed(url))
    case OutOfPages => Acquired(rows, nextId, PageLimitReached)
    case Finished => Acquire(rows, nextId, LastN(Collected(site, BlogIndex, maxPages), OldestCount), texts)
  }

  /** A run inserts at most five rows, each for one of the five oldest collected links, and
      changes no existing row. */
  lemma ScrapeInsertsFew(rows: seq<Article>, nextId: nat, site: Site, texts: Texts, maxPages: nat)
    ensures var a := Scrape(rows, nextId, site, texts, maxPages);
            rows <= a.rows && |a.rows| - |rows| <= OldestCount &&
            NewRowsFor(a.rows, rows, nextId, LastN(Collected(site, BlogIndex, maxPages), OldestCount), texts)
  {
    var links := LastN(Collected(site, BlogIndex, maxPages), OldestCount);
    AcquireGrows(rows, nextId, links, texts);
    AcquireNewRows(rows, nextId, links, texts);
  }

  /** Running again on the same site and pages inserts nothing and ends the same way,
      whichever way the first run ended. */
  lemma ScrapeIdempotent(rows: seq<Article>, nextId: nat, site: Site, texts: Texts, maxPages: nat)
    ensures var a := Scrape(rows, nextId, site, texts, maxPages);
            Scrape(a.rows, a.nextId, site, texts, maxPages) == a
  {
    if Walk(site, BlogIndex, maxPages).stop == Finished {
      AcquireRerun(rows, nextId, LastN(Collected(site, BlogIndex, maxPages), OldestCount), texts);
    }
  }

  /** A turn of the insertion loop that skips its link: one already stored, or one whose
      text fails the gate. */
  lemma AcquireSkip(rows: seq<Article>, nextId: nat, links: seq<string>, i: nat, texts: Texts)
    requires i < |links|
    requires HasSource(rows, links[i]) || (links[i] in texts && !LongEnough(texts[links[i]]))
    ensures Acquire(rows, nextId, links[i..], texts) == Acquire(rows, nextId, links[i + 1..], texts)
  {
    assert links[i..][0] == links[i] && links[i..][1..] == links[i + 1..];
  }

  /** A turn of the insertion loop whose page cannot be fetched ends the run. */
  lemma AcquireFail(rows: seq<Article>, nextId: nat, links: seq<string>, i: nat, texts: Texts)
    requires i < |links| && !HasSource(rows, links[i]) && links[i] !in texts
    ensures Acquire(rows, nextId, links[i..], texts) == Acquired(rows, nextId, ArticleFetchFailed(links[i]))
  {
    assert links[i..][0] == links[i];
  }

  /** A turn of the insertion loop that inserts a row for its link. */
  lemma AcquireInsert(rows: seq<Article>, nextId: nat, links: seq<string>, i: nat, texts: Texts, after: seq<Article>)
    requires i < |links| && !HasSource(rows, links[i]) && links[i] in texts && LongEnough(texts[links[i]])
    requires after == rows + [NewArticle(nextId, links[i], texts[links[i]])]
    ensures Acquire(rows, nextId, links[i..], texts) == Acquire(after, nextId + 1, links[i + 1..], texts)
  {
    assert links[i..][0] == links[i] && links[i..][1..] == links[i + 1..];
  }

  /** The insertion loop over the chosen links; `texts` is what `extractArticleContent`
      returns for each page that can be fetched. */
  method StoreArticles(store: ArticleStore, links: seq<string>, texts: Texts) returns (outcome: Outcome)
    requires store.Valid()
    modifies store
    ensures store.Valid()
    ensures Acquired(store.rows, store.nextId, outcome) ==
            Acquire(old(store.rows), old(store.nextId), links, texts)
  {
    ghost var goal := Acquire(store.rows, store.nextId, links, texts);
    assert links[0..] == links;
    for i := 0 to |links|
      invariant store.Valid()
      invariant Acquire(store.rows, store.nextId, links[i..], texts) == goal
    {
      var link := links[i];
      ghost var rows, nextId := store.rows, store.nextId;
      var existing := store.SelectBySource(link);
      if |existing| > 0 {
        AcquireSkip(rows, nextId, links, i, texts);
        assert Acquire(store.rows, store.nextId, links[i + 1..], texts) == goal;
        continue;
      }
      if link !in texts {
        AcquireFail(rows, nextId, links, i, texts);
        return ArticleFetchFailed(link);
      }
      var content := texts[link];
      if !LongEnough(content) {
        AcquireSkip(rows, nextId, links, i, texts);
        assert Acquire(store.rows, store.nextId, links[i + 1..], texts) == goal;
        continue;
      }
      store.Insert(DeriveTitle(link), content, link);
      AcquireInsert(rows, nextId, links, i, texts, store.rows);
      assert store.nextId == nextId + 1;
      assert Acquire(rows, nextId, links[i..], texts) == goal;
      assert Acquire(store.rows, store.nextId, links[i + 1..], texts) == goal;
    }
    assert links[|links|..] == [];
    outcome := Completed;
  }

  /** `scrapeAndStoreArticles`, the crawl bounded by `maxPages` pages. */
  method ScrapeAndStoreArticles(store: ArticleStore, site: Site, texts: Texts, maxPages: nat)
    returns (outcome: Outcome)
    requires store.Valid()
    modifies store
    ensures store.Valid()
    ensures Acquired(store.rows, store.nextId, outcome) ==
            Scrape(old(store.rows), old(store.nextId), site, texts, maxPages)
  {
    var allLinks, stop := CollectLinks(site, BlogIndex, maxPages);
    match stop
    case FetchFailed(url) =>
      return ListingFetchFailed(url);
    case OutOfPages =>
      return PageLimitReached;
    case Finished =>
      var oldestFive := LastN(allLinks, OldestCount);
      outcome := StoreArticles(store, oldestFive, texts);
  }

  /** `getStatus`: scraping is reported while the table is empty. */
  method GetStatus(store: ArticleStore) returns (scraping: bool)
    requires store.Valid()
    ensures scraping <==> store.rows == []
  {
    scraping := |store.rows| == 0;
  }
}
