/**
 * The RSS endpoint (`pages/api/rss.ts`): a `Feed` built once when the module
 * loads, with one category and one item per article.
 */
module Rss {
  import opened Manifest
  import opened Strings
  import opened Seqs
  import opened Dates
  import opened ArticlesPage

  datatype FeedAuthor = FeedAuthor(name: string, email: string, link: string)

  datatype FeedOptions = FeedOptions(
    id: string,
    title: string,
    description: string,
    link: string,
    image: string,
    copyright: string,
    author: FeedAuthor)

  /** The options the site's feed is created with. */
  const SiteFeedOptions := FeedOptions(
    "https://www.christianalfoni.com",
    "Christian Alfoni",
    "Freelance developer blog",
    "https://www.christianalfoni.com",
    "https://lh6.googleusercontent.com/-Am9E8NwuXuA/UuFhsL06WPI/AAAAAAAAAUo/etKU6VGmdW4/s250-no/me.jpg",
    "All rights reserved 2019, Christian Alfoni",
    FeedAuthor("Christian Alfoni", "christianalfoni@gmail.com", "https://www.christianalfoni.com"))

  const ArticleLinkPrefix := "https://www.christianalfoni.com/articles/"

  /** A feed item; `date` is the calendar date of the `Date` handed to `addItem`. */
  datatype FeedItem = FeedItem(title: string, link: string, description: string, date: DateKey)

  /** The `Feed` object of the feed library, as far as this endpoint uses it. */
  class Feed {
    const options: FeedOptions
    var categories: seq<string>
    var items: seq<FeedItem>

    /** `new Feed(options)`: no categories and no items yet. */
    constructor (options: FeedOptions)
      ensures this.options == options && categories == [] && items == []
    {
      this.options := options;
      categories, items := [], [];
    }

    /** `feed.addCategory(category)`. */
    method AddCategory(category: string)
      modifies this
      ensures categories == old(categories) + [category]
      ensures items == old(items)
    {
      categories := categories + [category];
    }

    /** `feed.addItem(item)`. */
    method AddItem(item: FeedItem)
      modifies this
      ensures items == old(items) + [item]
      ensures categories == old(categories)
    {
      items := items + [item];
    }
  }

  /** The item an article contributes: its title, its page, its summary and its date. */
  function ArticleItem(entry: (string, Article)): FeedItem
    requires WellFormedDate(entry.1.published)
  {
    FeedItem(entry.1.title, ArticleLinkPrefix + entry.0, entry.1.tldr, DateKeyOf(entry.1.published))
  }

  /**
   * The items of a feed filled from `articles` in key order: one per
   * article, in that order, each carrying the article's title, its link,
   * its tldr and its calendar date.
   */
  function ArticleItems(articles: Articles): (r: seq<FeedItem>)
    requires ArticlesWellFormed(articles)
    ensures |r| == |articles|
    ensures forall i :: 0 <= i < |articles| ==>
      && r[i].title == articles[i].1.title
      && r[i].link == ArticleLinkPrefix + articles[i].0
      && r[i].description == articles[i].1.tldr
      && r[i].date == DateKeyOf(articles[i].1.published)
  {
    if |articles| == 0 then []
    else
      var init := articles[..|articles| - 1];
      assert forall i :: 0 <= i < |init| ==> init[i] == articles[i];
      assert ArticlesWellFormed(init) by {
        assert forall i :: 0 <= i < |init| ==> EntryPublished(init[i]) == EntryPublished(articles[i]);
      }
      assert WellFormedDate(EntryPublished(articles[|articles| - 1]));
      ArticleItems(init) + [ArticleItem(articles[|articles| - 1])]
  }

  lemma ArticleItemsStep(articles: Articles, i: nat)
    requires ArticlesWellFormed(articles) && i < |articles|
    ensures ArticlesWellFormed(articles[..i]) && ArticlesWellFormed(articles[..i + 1])
    ensures WellFormedDate(articles[i].1.published)
    ensures ArticleItems(articles[..i + 1]) == ArticleItems(articles[..i]) + [ArticleItem(articles[i])]
  {
    assert forall k :: 0 <= k < i + 1 ==> articles[..i + 1][k] == articles[k];
    assert WellFormedDate(EntryPublished(articles[i]));
    assert articles[..i + 1][..i] == articles[..i];
  }

  /**
   * The module-level feed: the site's options, the single category
   * `development`, and one item per article of the manifest in key order;
   * the manifest's videos are not looked at. Dates go through `createDate`,
   * taken here in its corrected form.
   */
  method BuildFeed(publisher: Publisher, now: DateKey) returns (feed: Feed)
    requires ValidKey(now) && ArticlesWellFormed(publisher.articles)
    ensures fresh(feed)
    ensures feed.options == SiteFeedOptions
    ensures feed.categories == ["development"]
    ensures feed.items == ArticleItems(publisher.articles)
  {
    var articles := publisher.articles;
    feed := new Feed(SiteFeedOptions);
    feed.AddCategory("development");
    for i := 0 to |articles|
      invariant ArticlesWellFormed(articles[..i])
      invariant feed.options == SiteFeedOptions
      invariant feed.categories == ["development"]
      invariant feed.items == ArticleItems(articles[..i])
    {
      var entry := articles[i];
      ArticleItemsStep(articles, i);
      var date := CreateDate(entry.1.published, now);
      feed.AddItem(FeedItem(entry.1.title, ArticleLinkPrefix + entry.0, entry.1.tldr, date.Key()));
    }
    assert articles[..|articles|] == articles;
  }

  /** A string that starts with `p` does not start with a `q` that differs from `p` within both. */
  lemma DifferentPrefixes(s: string, p: string, q: string, k: nat)
    requires k < |p| && k < |q| && p[k] != q[k]
    requires StartsWith(s, p)
    ensures !StartsWith(s, q)
  {
    assert s[k] == p[k];
  }

  /** A link built from the article prefix is an article page and not a YouTube watch link. */
  lemma ArticleLinkIsNotVideo(slug: string)
    ensures StartsWith(ArticleLinkPrefix + slug, ArticleLinkPrefix)
    ensures !StartsWith(ArticleLinkPrefix + slug, "https://www.youtube.com/watch?v=")
  {
    var link := ArticleLinkPrefix + slug;
    assert link[..|ArticleLinkPrefix|] == ArticleLinkPrefix;
    DifferentPrefixes(link, ArticleLinkPrefix, "https://www.youtube.com/watch?v=", 12);
  }

  /**
   * Every item links to an article page of the site, never to a YouTube
   * video, and distinct article slugs give distinct links.
   */
  lemma FeedLinksAreArticlePages(articles: Articles)
    requires ArticlesWellFormed(articles)
    ensures forall item :: item in ArticleItems(articles) ==>
      StartsWith(item.link, ArticleLinkPrefix) && !StartsWith(item.link, "https://www.youtube.com/watch?v=")
    ensures DistinctKeys(articles) ==> NoDuplicates(ArticleItems(articles))
  {
    var items := ArticleItems(articles);
    forall item | item in items
      ensures StartsWith(item.link, ArticleLinkPrefix) && !StartsWith(item.link, "https://www.youtube.com/watch?v=")
    {
      var i :| 0 <= i < |items| && items[i] == item;
      ArticleLinkIsNotVideo(articles[i].0);
    }
    if DistinctKeys(articles) {
      forall i, j | 0 <= i < j < |items|
        ensures items[i] != items[j]
      {
        var li, lj := items[i].link, items[j].link;
        assert li[|ArticleLinkPrefix|..] == articles[i].0;
        assert lj[|ArticleLinkPrefix|..] == articles[j].0;
      }
    }
  }
}
