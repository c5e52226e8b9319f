/** `scrapeOldestBlogs` (backend/scraper.ts): from the blog listing take the last five
    `article` cards, skip a card without a heading or a link, make the link absolute, fetch
    the article page and collect its title, text and URL, in card order.

    A card is what the parsed listing offers: the text of its first `h2` or `h3` (empty when
    it has none) and the `href` of its first anchor (`None` when there is no anchor or no
    `href`). An article page is the text of its `article` elements; a URL missing from the map
    of pages is a fetch that fails, which rejects the whole call. */
module OldestBlogs {
  import opened Common
  import opened Text

  /** The listing that is fetched. */
  const ListingUrl: string := "https://beyondchats.com/blogs/"

  /** What a relative link is resolved against. */
  const Origin: string := "https://beyondchats.com"

  /** How many cards, from the end of the listing, are examined. */
  const CardCount: nat := 5

  datatype Card = Card(heading: string, href: Option<string>)

  datatype BlogPost = BlogPost(title: string, content: string, sourceUrl: string)

  /** A card that yields a post: a non-blank heading and a non-empty link. */
  predicate Survives(card: Card) {
    Trim(card.heading) != "" && card.href.Some? && card.href.value != ""
  }

  /** A link that starts with `http` is kept; any other is appended to the origin. */
  function AbsoluteUrl(link: string): (url: string)
    ensures StartsWith(url, "http")
    ensures StartsWith(link, "http") ==> url == link
    ensures !StartsWith(link, "http") ==> url == Origin + link
  {
    if StartsWith(link, "http") then link
    else
      assert (Origin + link)[..4] == Origin[..4];
      Origin + link
  }

  /** The URL a surviving card's article is fetched from. */
  function CardUrl(card: Card): string
    requires Survives(card)
  {
    AbsoluteUrl(card.href.value)
  }

  /** The post a surviving card yields once its page is fetched. */
  function PostOf(card: Card, page: string): (post: BlogPost)
    requires Survives(card)
    ensures post.title != "" && Trimmed(post.title) && Trimmed(post.content)
    ensures StartsWith(post.sourceUrl, "http")
  {
    BlogPost(Trim(card.heading), Trim(page), CardUrl(card))
  }

  /** Pages of the article URLs that can be fetched. */
  type Pages = map<string, string>

  /** The loop over the chosen cards: the posts, or the first URL whose fetch fails. */
  function Harvest(cards: seq<Card>, pages: Pages): Result<seq<BlogPost>, string>
    decreases |cards|
  {
    if cards == [] then Ok([])
    else
      var card := cards[0];
      if !Survives(card) then Harvest(cards[1..], pages)
      else if CardUrl(card) !in pages then Err(CardUrl(card))
      else
        match Harvest(cards[1..], pages)
        case Err(url) => Err(url)
        case Ok(posts) => Ok([PostOf(card, pages[CardUrl(card)])] + posts)
  }

  /** The surviving cards, in order. */
  function Survivors(cards: seq<Card>): (r: seq<Card>)
    ensures |r| <= |cards|
    ensures forall c :: c in r <==> c in cards && Survives(c)
  {
    if cards == [] then []
    else (if Survives(cards[0]) then [cards[0]] else []) + Survivors(cards[1..])
  }

  /** The posts come back exactly when every surviving card's URL can be fetched. */
  lemma {:induction false} HarvestSucceeds(cards: seq<Card>, pages: Pages)
    ensures Harvest(cards, pages).Ok? <==> forall c :: c in Survivors(cards) ==> CardUrl(c) in pages
    decreases |cards|
  {
    if cards != [] {
      HarvestSucceeds(cards[1..], pages);
      if Survives(cards[0]) {
        assert Survivors(cards) == [cards[0]] + Survivors(cards[1..]);
      } else {
        assert Survivors(cards) == Survivors(cards[1..]);
      }
    }
  }

  /** A failure names the URL of a surviving card that cannot be fetched. */
  lemma {:induction false} HarvestFails(cards: seq<Card>, pages: Pages)
    requires Harvest(cards, pages).Err?
    ensures var url := Harvest(cards, pages).error;
            url !in pages && exists c :: c in Survivors(cards) && CardUrl(c) == url
    decreases |cards|
  {
    var card := cards[0];
    if Survives(card) {
      assert Survivors(cards) == [card] + Survivors(cards[1..]);
      if CardUrl(card) in pages {
        HarvestFails(cards[1..], pages);
      }
    } else {
      assert Survivors(cards) == Survivors(cards[1..]);
      HarvestFails(cards[1..], pages);
    }
  }

  /** `post` is what the surviving card `card` yields from its fetched page. */
  predicate PostFor(post: BlogPost, card: Card, pages: Pages) {
    Survives(card) && CardUrl(card) in pages && post == PostOf(card, pages[CardUrl(card)])
  }

  /** On success there is one post per surviving card, in card order. */
  lemma {:induction false} HarvestPosts(cards: seq<Card>, pages: Pages)
    requires Harvest(cards, pages).Ok?
    ensures var posts := Harvest(cards, pages).value;
            var s := Survivors(cards);
            |posts| == |s| &&
            forall i :: 0 <= i < |s| ==> PostFor(posts[i], s[i], pages)
    decreases |cards|
  {
    if cards != [] {
      var card := cards[0];
      var rest := cards[1..];
      HarvestPosts(rest, pages);
      var s := Survivors(rest);
      var posts := Harvest(rest, pages).value;
      if Survives(card) {
        var s' := [card] + s;
        assert Survivors(cards) == s';
        var posts' := [PostOf(card, pages[CardUrl(card)])] + posts;
        assert Harvest(cards, pages).value == posts';
        forall i | 0 <= i < |s'|
          ensures PostFor(posts'[i], s'[i], pages)
        {
          if i > 0 {
            assert s'[i] == s[i - 1] && posts'[i] == posts[i - 1];
          }
        }
      } else {
        assert Survivors(cards) == s;
      }
    }
  }

  /** `scrapeOldestBlogs` as a value: `None` for a listing whose fetch fails. */
  function Scrape(listing: Option<seq<Card>>, pages: Pages): Result<seq<BlogPost>, string> {
    if listing.None? then Err(ListingUrl) else Harvest(LastN(listing.value, CardCount), pages)
  }

  /** A call returns at most five posts, one per surviving card among the last five, in
      order, each with the trimmed non-empty heading as its title, the trimmed page text as
      its content and an absolute `http` URL as its source. */
  lemma ScrapeFewPosts(listing: Option<seq<Card>>, pages: Pages)
    requires Scrape(listing, pages).Ok?
    ensures var posts := Scrape(listing, pages).value;
            var s := Survivors(LastN(listing.value, CardCount));
            |posts| <= CardCount && |posts| == |s| &&
            forall i :: 0 <= i < |posts| ==>
              posts[i].title == Trim(s[i].heading) && posts[i].title != "" &&
              CardUrl(s[i]) in pages && posts[i].content == Trim(pages[CardUrl(s[i])]) &&
              posts[i].sourceUrl == CardUrl(s[i]) && StartsWith(posts[i].sourceUrl, "http")
  {
    HarvestPosts(LastN(listing.value, CardCount), pages);
  }

  /** The posts collected so far followed by what the remaining cards give. */
  function Then(posts: seq<BlogPost>, r: Result<seq<BlogPost>, string>): Result<seq<BlogPost>, string> {
    match r
    case Err(url) => Err(url)
    case Ok(more) => Ok(posts + more)
  }

  /** No posts collected yet: the result is what the cards give. */
  lemma ThenNothing(r: Result<seq<BlogPost>, string>)
    ensures Then([], r) == r
  {
    if r.Ok? {
      assert [] + r.value == r.value;
    }
  }

  /** One turn of the loop: what the remaining cards give after `posts`, from the first one. */
  lemma HarvestStep(cards: seq<Card>, pages: Pages, i: nat, posts: seq<BlogPost>)
    requires i < |cards|
    ensures var card := cards[i];
            Then(posts, Harvest(cards[i..], pages)) ==
              if !Survives(card) then Then(posts, Harvest(cards[i + 1..], pages))
              else if CardUrl(card) !in pages then Err(CardUrl(card))
              else Then(posts + [PostOf(card, pages[CardUrl(card)])], Harvest(cards[i + 1..], pages))
  {
    assert cards[i..][0] == cards[i] && cards[i..][1..] == cards[i + 1..];
    var card := cards[i];
    if Survives(card) && CardUrl(card) in pages {
      var post := PostOf(card, pages[CardUrl(card)]);
      match Harvest(cards[i + 1..], pages) {
        case Err(_) =>
        case Ok(more) =>
          assert posts + [post] + more == posts + ([post] + more);
      }
    }
  }

  /** `scrapeOldestBlogs`. */
  method ScrapeOldestBlogs(listing: Option<seq<Card>>, pages: Pages)
    returns (result: Result<seq<BlogPost>, string>)
    ensures result == Scrape(listing, pages)
  {
    if listing.None? {
      return Err(ListingUrl);
    }
    var cards := LastN(listing.value, CardCount);
    var posts: seq<BlogPost> := [];
    assert cards[0..] == cards;
    ThenNothing(Harvest(cards, pages));
    for i := 0 to |cards|
      invariant Harvest(cards, pages) == Then(posts, Harvest(cards[i..], pages))
    {
      var card := cards[i];
      HarvestStep(cards, pages, i, posts);
      var title := Trim(card.heading);
      var link := card.href;
      if title == "" || link.None? || link.value == "" {
        assert !Survives(card);
        continue;
      }
      assert Survives(card);
      var url := AbsoluteUrl(link.value);
      assert url == CardUrl(card);
      if url !in pages {
        return Err(url);
      }
      var content := Trim(pages[url]);
      var post := BlogPost(title, content, url);
      assert post == PostOf(card, pages[url]);
      posts := posts + [post];
    }
    assert cards[|cards|..] == [];
    assert posts + [] == posts;
    result := Ok(posts);
  }
}
