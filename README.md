# Blog acquisition and enhancement — a Dafny model

This project models the decision logic of a small blog-ingestion backend. The backend
crawls the listing pages of `https://beyondchats.com/blogs` and collects article links. It
extracts and cleans each article's text and stores new articles in an `articles` table. On
request it stores an LLM rewrite of one article. The network, the DOM libraries, the database
and the LLM are replaced by supplied inputs:

- a listing page is its anchors' hrefs plus its optional `a.next` href, and the site is a map
  from URL to page (a missing URL is a fetch that throws);
- what Readability extracts from an article page is a map from URL to optional HTML;
- the table is a sequence of rows plus the `serial` id counter;
- the generator is a function from the article content to an optional text (`None` = throws);
- a blog card is its first heading's text plus its first anchor's optional href.

Modules, one per component:

| module | file | models |
|---|---|---|
| `Common` | common.dfy | `Option`, `Result`, `slice(-n)`, no-duplicates |
| `Text` | text.dfy | JavaScript `trim`, `\s`, `includes`, `startsWith`, `/i` folding, UTF-16 `length` |
| `Html` | html.dfy | `cleanHtml`: six global regex replacements and `trim` |
| `Crawl` | crawl.dfy | the `while (url)` link-collection loop of `scrapeAndStoreArticles` |
| `Titles` | titles.dfy | title derivation from a link |
| `Store` | store.dfy | the `articles` table and the queries the controllers run |
| `Acquisition` | acquisition.dfy | `scrapeAndStoreArticles`' insertion loop, `getStatus` |
| `Enhancement` | enhancement.dfy | `enhanceArticle` |
| `OldestBlogs` | scraper.dfy | `scrapeOldestBlogs` |

Each loop of the source is a method with loop invariants. Each method's `ensures` ties it to
a specification function: `Walk`/`Collected`, `Acquire`, `Enhance` or `Harvest`. The lemmas
prove the source's promises about those functions.

Facts about the code that the model keeps:

- a link with no non-empty path segment gets the title `"Untitled"`;
- links are deduplicated as written, with no resolution against the site origin;
- the crawl loop has no page bound (the model adds `maxPages`, see below);
- `enhancedContent` is whatever the generator returns, the empty string included; nothing
  checks its length;
- the `references` column is never written;
- there is no bulk enhancement and no busy flag.

## Model

| member | source | states |
|---|---|---|
| `Text.Trim` | backend/controllers.ts:20 | the result has no JavaScript whitespace at either end, is a contiguous slice of the input, and only whitespace was cut off |
| `Text.TrimTrimmed` | backend/controllers.ts:20 | trimming an already trimmed string changes nothing |
| `Text.Utf16Length` | backend/controllers.ts:89 | `content.length` counts UTF-16 code units: between one and two per character |
| `Html.StripTags` | backend/controllers.ts:18 | after removing `<[^>]+>` globally, no tag (`<`, one or more non-`>`, `>`) is left |
| `Html.StripTagsTagFree` | backend/controllers.ts:18 | the left-to-right tag removal leaves a tag-free string, even where removal brings a `<` and a later `>` together |
| `Html.CollapseNewlines` | backend/controllers.ts:19 | after replacing `\n{3,}` by two newlines there are never three newlines in a row, and no tag is created |
| `Html.CollapseNoTriple` | backend/controllers.ts:19 | collapsing leaves no triple newline and keeps the leading newline count, capped at two |
| `Html.CollapseTagFree` | backend/controllers.ts:19 | collapsing newline runs in a tag-free string creates no tag |
| `Html.CleanHtml` | backend/controllers.ts:12-21 | the cleaned text contains no tag, never three newlines in a row, and no whitespace at either end |
| `Html.BlockMatched` | backend/controllers.ts:14-15 | the lazy block pattern matches a whole `<name…>body</name>` block, tag names spelt in any mix of cases, `>` allowed inside the attributes, provided no closing tag starts after the first `>` before the block's own |
| `Html.ScriptBlockDropped` | backend/controllers.ts:14 | the script-removal step deletes a script block, in any case, together with its contents |
| `Html.StyleBlockDropped` | backend/controllers.ts:15 | the style-removal step deletes a style block, in any case, together with its contents |
| `Html.CleanHtmlDropsScript` | backend/controllers.ts:12-21 | a leading script block in any case, contents included, contributes nothing to the cleaned text |
| `Html.NoMatchInClean` | backend/controllers.ts:14-19 | none of the six patterns matches at the start of a tag-free text without triple newlines |
| `Html.ReplaceAllClean` | backend/controllers.ts:14-19 | on such a text every replacement of the chain is the identity |
| `Html.CleanHtmlIdempotent` | backend/controllers.ts:12-21 | cleaning cleaned text changes nothing |
| `Crawl.ArticleLinksKept` | backend/controllers.ts:57-64 | the kept hrefs are exactly the page's hrefs that contain `/blogs/` and neither `/page/` nor `#` |
| `Crawl.AppendNew` | backend/controllers.ts:66-70 | the push only extends the list, by at most one element per offered link |
| `Crawl.AppendNewMembers` | backend/controllers.ts:66-70 | pushing only links not yet included adds exactly the offered links and keeps the list free of duplicates |
| `Crawl.AppendNewConcat` | backend/controllers.ts:66-70 | pushing one page's links and then the next page's equals pushing both pages' links in one go |
| `Crawl.FirstSeenOrder` | backend/controllers.ts:66-70 | of two collected links, the one placed earlier was first seen earlier |
| `Crawl.GatheredLinks` | backend/controllers.ts:57-70 | the links gathered over the pages are exactly the article links found on some visited page |
| `Crawl.WalkFollowsNext` | backend/controllers.ts:52-76 | the walk fetches at most the bound, each page reached by the previous page's `a.next`; it stops normally only at a page with no (or an empty) next link, and fails only on a URL the site cannot serve |
| `Crawl.WalkFuel` | backend/controllers.ts:52-76 | once the walk stops on its own, a larger page bound changes nothing |
| `Crawl.SelfLinkExhausts` | backend/controllers.ts:52-76 | a page whose `a.next` points to itself exhausts any page bound: the unbounded source loop never ends on it |
| `Crawl.CollectedLinks` | backend/controllers.ts:52-78 | `allLinks` has no duplicates and holds exactly the article links of every visited page |
| `Crawl.PushNew` | backend/controllers.ts:66-70 | the inner `for … of links` loop computes the order-preserving deduplicated push |
| `Crawl.CollectFromWalk` | backend/controllers.ts:52-76 | collecting page by page from any URL onwards pushes, in one go, the article links of the rest of the walk and ends with that walk's stop reason |
| `Crawl.CollectLinks` | backend/controllers.ts:52-76 | the `while (url)` loop yields the collected links and stop reason of the bounded walk |
| `Crawl.DedupExample` | backend/controllers.ts:66-70 | pushing `a, b, b, c` into an empty list gives `a, b, c` |
| `Crawl.TwoPageWalk` | backend/controllers.ts:52-78 | pages `[a, b]` → next → `[b, c]` collect `[a, b, c]`, whose last two are `[b, c]` |
| `Common.LastN` | backend/controllers.ts:78 | `slice(-n)` keeps `min(n, length)` elements and they are the list's suffix |
| `Titles.Split` | backend/controllers.ts:92 | `split("/")` gives at least one piece and no piece holds a `/` |
| `Titles.SplitJoin` | backend/controllers.ts:92 | joining the pieces with `/` gives back the link |
| `Titles.JoinSplit` | backend/controllers.ts:92 | splitting joined slash-free pieces gives back the pieces |
| `Titles.NonEmptyKept` | backend/controllers.ts:93 | `filter(Boolean)` keeps exactly the non-empty pieces |
| `Titles.Dashes` | backend/controllers.ts:95 | every `-` becomes a space and every other character is kept |
| `Titles.Capitalize` | backend/controllers.ts:96 | exactly the word-initial `\w` characters are upper-cased; the length is kept |
| `Titles.NoSegmentIffSlashes` | backend/controllers.ts:91-99 | the `"Untitled"` fallback happens exactly when the link is made only of slashes |
| `Titles.LastSegmentAt` | backend/controllers.ts:91-94 | the piece `pop()` returns is non-empty, slash-free, and ends the link apart from trailing slashes |
| `Titles.SegmentTitle` | backend/controllers.ts:95-96 | the title made from a piece has the piece's length and no dash: dashes become spaces, word-initial characters are upper-cased, the rest is kept |
| `Titles.TitleChars` | backend/controllers.ts:91-99 | a derived title is never empty and holds no dash; otherwise it has one character per character of the last piece, dashes as spaces and word starts upper-cased |
| `Store.WithSource` | backend/controllers.ts:81-84 | the `WHERE source_url = link` select returns exactly the rows of that source, empty exactly when none exists |
| `Store.FindById` | backend/controllers.ts:120-123 | the `WHERE id = id` select returns a row with that id, or nothing when no row has it |
| `Store.SetEnhanced` | backend/controllers.ts:135-141 | the update sets `enhancedContent` and `isUpdated = true` on the rows with the id and keeps every other row |
| `Store.SetEnhancedWellFormed` | backend/controllers.ts:135-141 | the update keeps ids and the rule `isUpdated` ⇒ enhanced content present |
| `Store.UniqueSourcesAppend` | backend/controllers.ts:86-103 | inserting only when no row has the source keeps sources unique |
| `Store.WellFormedAppend` | backend/schema.ts:3-12 | an insert with the serial id and `isUpdated = false` keeps ids increasing and the table well formed |
| `Store.ArticleStore.constructor` | backend/schema.ts:3-12 | the table starts empty with the serial counter at 1 |
| `Store.ArticleStore.SelectBySource` | backend/controllers.ts:81-84 | the select returns exactly the rows whose `source_url` is that URL, and nothing exactly when no row has that source |
| `Store.ArticleStore.SelectById` | backend/controllers.ts:120-123 | the select returns a row of the table with that id, and nothing exactly when no row has that id |
| `Store.ArticleStore.Insert` | backend/controllers.ts:98-103 | the insert appends one row numbered by the counter, with no enhanced content or references and `isUpdated = false` |
| `Store.ArticleStore.UpdateEnhanced` | backend/controllers.ts:135-141 | the update rewrites only the rows with the id and keeps the table well formed |
| `Acquisition.ExtractAll` | backend/controllers.ts:23-37 | `extractArticleContent` is defined for exactly the pages that can be fetched |
| `Acquisition.ExtractedTextClean` | backend/controllers.ts:35-36 | extracted text has no tag, no triple newline and no surrounding whitespace |
| `Acquisition.AcquireGrows` | backend/controllers.ts:80-104 | existing rows are kept unchanged at the front, at most one row is added per link, and the counter grows by the number added |
| `Acquisition.AcquireNewRows` | backend/controllers.ts:80-104 | each added row is numbered in turn, has `isUpdated = false`, and was added for a link with no row of that source whose text passed the 300-unit gate, titled from the link |
| `Acquisition.AcquireCovers` | backend/controllers.ts:80-104 | after a completed loop a link has a row exactly when it had one before or its text passes the gate |
| `Acquisition.AcquireIdempotent` | backend/controllers.ts:80-104 | a loop over links that all have rows or fail the gate inserts nothing |
| `Acquisition.AcquireWellFormed` | backend/controllers.ts:80-104 | the loop keeps ids positive and increasing below the counter, and `isUpdated` rows enhanced |
| `Acquisition.AcquireUniqueSources` | backend/controllers.ts:80-104 | if no two rows shared a `sourceUrl` before the loop, none do after |
| `Acquisition.ScrapeInsertsFew` | backend/controllers.ts:78-104 | a run inserts at most five rows, each for one of the last five collected links, and changes no existing row |
| `Acquisition.AcquireRerun` | backend/controllers.ts:80-104 | rerunning the insertion loop over the table it left, with the same links and pages, inserts nothing and ends the same way, a failed fetch included |
| `Acquisition.ScrapeIdempotent` | backend/controllers.ts:48-105 | a second run on the same site, pages and the table the first left inserts nothing and ends the same way, whichever way the first ended |
| `Acquisition.StoreArticles` | backend/controllers.ts:80-104 | the `for … of oldestFive` loop leaves the table, counter and outcome that `Acquire` specifies |
| `Acquisition.ScrapeAndStoreArticles` | backend/controllers.ts:48-105 | a whole run leaves the table, counter and outcome that `Scrape` specifies |
| `Acquisition.GetStatus` | backend/controllers.ts:109-112 | `scraping` is reported exactly when the table is empty |
| `Enhancement.EnhanceNotFound` | backend/controllers.ts:120-127 | the reply is 404 exactly when the select works and no row has the id; any reply but success leaves the table as it was |
| `Enhancement.EnhanceSuccess` | backend/controllers.ts:116-147 | the reply is success exactly when neither database call fails, a row has the id, and the generator answers for that row's content |
| `Enhancement.FindFirst` | backend/controllers.ts:120-123 | the destructured `[article]` is the first row with the id |
| `Enhancement.EnhanceOneRow` | backend/controllers.ts:135-141 | on success exactly one row changes: its `enhancedContent` becomes the generator's output and `isUpdated` becomes true |
| `Enhancement.EnhanceKeepsTable` | backend/controllers.ts:116-147 | every request keeps the table well formed |
| `Enhancement.EnhanceArticle` | backend/controllers.ts:116-147 | the handler's reply and new table are those `Enhance` specifies, and the counter is unchanged |
| `OldestBlogs.AbsoluteUrl` | backend/scraper.ts:26-28 | a link starting with `http` is kept, any other is prefixed with `https://beyondchats.com`, so the URL always starts with `http` |
| `OldestBlogs.PostOf` | backend/scraper.ts:35-39 | a post's title is non-empty and trimmed, its content trimmed, its URL starts with `http` |
| `OldestBlogs.Survivors` | backend/scraper.ts:21-24 | the cards kept are exactly those with a non-blank heading and a non-empty link |
| `OldestBlogs.HarvestSucceeds` | backend/scraper.ts:20-39 | the loop returns posts exactly when every surviving card's URL can be fetched |
| `OldestBlogs.HarvestFails` | backend/scraper.ts:20-30 | a failure names a surviving card's URL that cannot be fetched |
| `OldestBlogs.HarvestPosts` | backend/scraper.ts:20-39 | on success there is one post per surviving card, in card order, built from that card and its page |
| `OldestBlogs.ScrapeFewPosts` | backend/scraper.ts:16-39 | at most five posts, one per surviving card among the last five, in order, titled by the trimmed heading, with the trimmed page text and an `http` URL |
| `OldestBlogs.ScrapeOldestBlogs` | backend/scraper.ts:4-43 | the `for` loop with `continue` and `push` returns what `Scrape` specifies |

## Left out

- Network, DOM and LLM calls (`axios`, `JSDOM`, `Readability`, `cheerio`, the Groq SDK) are not modelled. Their results are inputs: hrefs, the `a.next` href, extracted HTML, card headings, page text and generator output.
- How JSDOM resolves `a.href` against a base URL is not modelled; hrefs are taken as the strings the DOM hands back.
- The crawl loop has no bound in the source. The model fetches at most `maxPages` pages; a walk that needs more is the outcome `PageLimitReached` and inserts nothing. This covers every walk whose next links cycle, which the source follows forever (`SelfLinkExhausts`); a walk that ends on its own within the bound gives the same result under any larger bound (`WalkFuel`), but one longer than the bound, which the source would finish, is cut short.
- A failed fetch rejects the source's promise; the model returns it as an outcome value (`ListingFetchFailed`, `ArticleFetchFailed`, `Err(url)`) with the rows inserted so far.
- `createdAt` is filled in by the database clock and is left out of the row.
- `getArticles` and the HTTP layer (`server.ts`, `routes.ts`, status codes besides 200/404/500) are not modelled; `getArticles` only returns every row.
- Database failures in `enhanceArticle` are two flags; a request id that is not an integer is one of them, since the select then throws.
- `StoreArticles`: the source-URL select and the insert cannot fail in the model; in the source either can throw and reject the run after the rows inserted so far.
- `ScrapeAndStoreArticles`: inherits the same gap; a database failure during the insertion loop is not one of its outcomes.
- The search API (`search.ts`), the `references` column, bulk enhancement, the busy flag and a minimum generated length have no implementation in the modelled code and are not modelled.
- Concurrent acquisition and enhancement runs are not modelled; each operation runs alone on the table.
- The regex patterns are modelled on Unicode characters rather than UTF-16 code units; every pattern character is ASCII, so the matches are the same.
- `CleanHtmlDropsScript`: states the removal only for a script block at the start of the input; `ScriptBlockDropped` and `StyleBlockDropped` state it for the single replacement step wherever it scans.
