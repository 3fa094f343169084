/**
 * The home page (`pages/index.tsx`): `getInitialProps` picks a "last
 * article" and a "last video" from the manifest, the cards render them,
 * and the presentations column lists the first three presentations.
 */
module HomePage {
  import opened Manifest
  import opened Strings
  import opened Dates
  import opened Sorting
  import opened ArticlesPage
  import opened VideosPage

  /** `a >= b` on strings, the negation of `a < b`. */
  lemma NotLessTransitive(a: string, b: string, c: string)
    requires !Less(a, b) && !Less(b, c)
    ensures !Less(a, c)
  {
    if Less(a, c) {
      LessTotal(b, c);
      if Less(c, b) {
        LessTransitive(a, c, b);
      }
    }
  }

  // ---------------------------------------------------------------------
  // lastArticleName: the first key after an ascending sort of the article
  // keys on their raw `published` strings.
  // ---------------------------------------------------------------------

  /**
   * The entry an ascending sort on the raw `published` strings puts first:
   * one whose token is not greater than any other; on equal tokens the
   * earlier entry.
   */
  function FirstByRawPublished(articles: Articles): (e: (string, Article))
    requires |articles| > 0
    ensures e in articles
    ensures forall x :: x in articles ==> !Less(x.1.published, e.1.published)
  {
    if |articles| == 1 then
      assert forall x :: x in articles ==> x == articles[0];
      LessIrreflexive(articles[0].1.published);
      articles[0]
    else
      var m := FirstByRawPublished(articles[1..]);
      var h := articles[0];
      assert articles == [h] + articles[1..];
      assert forall x :: x in articles ==> x == h || x in articles[1..];
      LessAsymmetric(m.1.published, h.1.published);
      LessIrreflexive(h.1.published);
      RawMinimumStep(h, m, articles[1..]);
      if Less(m.1.published, h.1.published) then m else h
  }

  lemma RawMinimumStep(h: (string, Article), m: (string, Article), rest: Articles)
    requires forall x :: x in rest ==> !Less(x.1.published, m.1.published)
    ensures !Less(m.1.published, h.1.published) ==>
      forall x :: x in rest ==> !Less(x.1.published, h.1.published)
  {
    if !Less(m.1.published, h.1.published) {
      forall x | x in rest
        ensures !Less(x.1.published, h.1.published)
      {
        NotLessTransitive(x.1.published, m.1.published, h.1.published);
      }
    }
  }

  /**
   * `lastArticleName` as written. The source then reads
   * `articles[lastArticleName].title`, which throws on an empty manifest;
   * here that case is `None`.
   */
  function LastArticleName(articles: Articles): (r: Option<string>)
    ensures r.None? <==> |articles| == 0
    ensures r.Some? ==>
      exists i ::
        && 0 <= i < |articles|
        && articles[i].0 == r.value
        && forall j :: 0 <= j < |articles| ==> !Less(articles[j].1.published, articles[i].1.published)
  {
    if |articles| == 0 then None
    else
      var e := FirstByRawPublished(articles);
      var i :| 0 <= i < |articles| && articles[i] == e;
      assert forall j :: 0 <= j < |articles| ==> articles[j] in articles;
      Some(e.0)
  }

  lemma NewYear2019()
    ensures WellFormedDate("01.01.2019") && DateKeyOf("01.01.2019") == DateKey(2019, 0, 1)
  {
    TokenDenotes("01", "01", "2019", 1, 1, 2019);
    assert Token("01", "01", "2019") == "01.01.2019";
  }

  lemma NewYearsEve2019()
    ensures WellFormedDate("31.12.2019") && DateKeyOf("31.12.2019") == DateKey(2019, 11, 31)
  {
    TokenDenotes("31", "12", "2019", 31, 12, 2019);
    assert Token("31", "12", "2019") == "31.12.2019";
  }

  lemma March2020()
    ensures WellFormedDate("05.03.2020") && DateKeyOf("05.03.2020") == DateKey(2020, 2, 5)
  {
    TokenDenotes("05", "03", "2020", 5, 3, 2020);
    assert Token("05", "03", "2020") == "05.03.2020";
  }

  /**
   * The raw token `DD.MM.YYYY` sorts by day of month first, and the sort is
   * ascending: of an article from 1 January 2019 and one from 5 March 2020
   * the home page shows the older one as the last article.
   */
  lemma LastArticleNotNewest()
    ensures var articles := [("old-post", Article("Old", "", "01.01.2019", [], "")),
                             ("new-post", Article("New", "", "05.03.2020", [], ""))];
      LastArticleName(articles) == Some("old-post")
    ensures WellFormedDate("01.01.2019") && WellFormedDate("05.03.2020")
    ensures Later(DateKeyOf("05.03.2020"), DateKeyOf("01.01.2019"))
  {
    var articles := [("old-post", Article("Old", "", "01.01.2019", [], "")),
                     ("new-post", Article("New", "", "05.03.2020", [], ""))];
    LessAtFirstDifference("01.01.2019", "05.03.2020", 1);
    LessAsymmetric("01.01.2019", "05.03.2020");
    assert articles[1..] == [articles[1]];
    NewYear2019();
    March2020();
  }

  /**
   * The evidently intended last article: the first row of the article
   * listing with nothing selected, an article at least as new as every
   * other by `sortByPublished`.
   */
  function NewestArticleName(articles: Articles): (r: Option<string>)
    requires ArticlesWellFormed(articles)
    ensures r.None? <==> |articles| == 0
    ensures r.Some? ==>
      exists i ::
        && 0 <= i < |articles|
        && articles[i].0 == r.value
        && forall j :: 0 <= j < |articles| ==>
             SortByPublished(articles[i].1.published, articles[j].1.published) <= 0
  {
    var listing := Listing(articles);
    if |listing| == 0 then None
    else
      var top := listing[0];
      assert top in multiset(articles);
      var i :| 0 <= i < |articles| && articles[i] == top;
      assert forall j :: 0 <= j < |articles| ==> articles[j] in multiset(listing);
      Some(top.0)
  }

  /** The corrected last article is the one the article index lists first. */
  lemma NewestArticleHeadsListing(articles: Articles)
    requires ArticlesWellFormed(articles) && |articles| > 0
    ensures NewestArticleName(articles) == Some(ShownNames(articles, [])[0])
  {
    HidingKeepsOrder(articles, []);
  }

  // ---------------------------------------------------------------------
  // lastVideo: an outer fold over the category keys, seeded with element
  // [0] of the first non-empty category; after that, an inner fold over
  // each category replaces the current video by any whose raw `published`
  // string is greater.
  // ---------------------------------------------------------------------

  /**
   * The inner `reduce`: `current` is replaced only by a video whose raw
   * token is strictly greater, so on equal tokens the earlier one stays.
   */
  function InnerFold(current: Video, videos: seq<Video>): (r: Video)
    ensures r == current || r in videos
    ensures !Less(r.published, current.published)
    ensures forall v :: v in videos ==> !Less(r.published, v.published)
    decreases |videos|
  {
    if |videos| == 0 then
      LessIrreflexive(current.published);
      current
    else
      var v := videos[0];
      var next := if Less(current.published, v.published) then v else current;
      var r := InnerFold(next, videos[1..]);
      assert videos == [v] + videos[1..];
      LessIrreflexive(v.published);
      LessIrreflexive(current.published);
      LessAsymmetric(current.published, v.published);
      NotLessTransitive(r.published, next.published, current.published);
      NotLessTransitive(r.published, next.published, v.published);
      r
  }

  /**
   * The replacement is strict, so of several videos with the greatest raw
   * token the first one seen wins: in `[current] + videos` the result sits
   * at a position before which every video's token is strictly smaller.
   */
  lemma {:induction false} InnerFoldKeepsEarlierOnTies(current: Video, videos: seq<Video>)
    ensures var s, r := [current] + videos, InnerFold(current, videos);
      exists k :: 0 <= k < |s| && s[k] == r && forall j :: 0 <= j < k ==> Less(s[j].published, r.published)
    decreases |videos|
  {
    var s, r := [current] + videos, InnerFold(current, videos);
    if |videos| == 0 {
      assert s[0] == r;
    } else {
      var v := videos[0];
      var next := if Less(current.published, v.published) then v else current;
      var s' := [next] + videos[1..];
      assert videos == [v] + videos[1..];
      InnerFoldKeepsEarlierOnTies(next, videos[1..]);
      var k' :| 0 <= k' < |s'| && s'[k'] == r && forall j :: 0 <= j < k' ==> Less(s'[j].published, r.published);
      if next == current && k' == 0 {
        assert s[0] == r;
      } else {
        FirstMaximumStep(current, v, videos, r, k');
      }
    }
  }

  /** The induction step of `InnerFoldKeepsEarlierOnTies` when the result is not the current video. */
  lemma FirstMaximumStep(current: Video, v: Video, videos: seq<Video>, r: Video, k': nat)
    requires |videos| > 0 && videos[0] == v
    requires var next := if Less(current.published, v.published) then v else current;
      var s' := [next] + videos[1..];
      && k' < |s'| && s'[k'] == r && (forall j :: 0 <= j < k' ==> Less(s'[j].published, r.published))
      && !(next == current && k' == 0)
    ensures var s := [current] + videos;
      exists k :: 0 <= k < |s| && s[k] == r && forall j :: 0 <= j < k ==> Less(s[j].published, r.published)
  {
    var s := [current] + videos;
    var next := if Less(current.published, v.published) then v else current;
    var s' := [next] + videos[1..];
    if Less(current.published, v.published) {
      assert s' == videos;
      assert s[1..] == s';
      if k' > 0 {
        LessTransitive(current.published, v.published, r.published);
      }
      assert forall j :: 0 < j < k' + 1 ==> s[j] == s'[j - 1];
    } else {
      assert k' > 0 && s'[0] == current;
      assert Less(current.published, r.published);
      LessTotal(v.published, current.published);
      if v.published != current.published {
        LessTransitive(v.published, current.published, r.published);
      }
      assert forall j :: 1 < j < k' + 1 ==> s[j] == s'[j - 1];
    }
    assert s[k' + 1] == r;
  }

  /** The outer `reduce` over category keys, `None` standing for a falsy `aggr`. */
  function OuterFold(aggr: Option<Video>, categories: Categories): Option<Video>
    decreases |categories|
  {
    if |categories| == 0 then aggr
    else
      var videos := categories[0].1;
      var next :=
        if aggr.None? then (if |videos| > 0 then Some(videos[0]) else None)
        else Some(InnerFold(aggr.value, videos));
      OuterFold(next, categories[1..])
  }

  /** `lastVideo` as written. */
  function LastVideo(categories: Categories): Option<Video>
  {
    OuterFold(None, categories)
  }

  /** Once seeded, the fold keeps a video no smaller than the seed and than every later video. */
  lemma {:induction false} SeededFold(seed: Video, categories: Categories)
    ensures OuterFold(Some(seed), categories).Some?
    ensures var r := OuterFold(Some(seed), categories).value;
      && !Less(r.published, seed.published)
      && (forall i, v :: 0 <= i < |categories| && v in categories[i].1 ==> !Less(r.published, v.published))
      && (r == seed || exists i :: 0 <= i < |categories| && r in categories[i].1)
    decreases |categories|
  {
    if |categories| > 0 {
      var next := InnerFold(seed, categories[0].1);
      SeededFold(next, categories[1..]);
      var r := OuterFold(Some(seed), categories).value;
      NotLessTransitive(r.published, next.published, seed.published);
      forall i, v | 0 <= i < |categories| && v in categories[i].1
        ensures !Less(r.published, v.published)
      {
        if i == 0 {
          NotLessTransitive(r.published, next.published, v.published);
        } else {
          assert categories[1..][i - 1] == categories[i];
        }
      }
      if r != next {
        var i :| 0 <= i < |categories[1..]| && r in categories[1..][i].1;
        assert categories[i + 1] == categories[1..][i];
      }
    } else {
      LessIrreflexive(seed.published);
    }
  }

  lemma {:induction false} EmptyPrefixFold(prefix: Categories, rest: Categories)
    requires forall i :: 0 <= i < |prefix| ==> |prefix[i].1| == 0
    ensures OuterFold(None, prefix + rest) == OuterFold(None, rest)
    decreases |prefix|
  {
    if |prefix| > 0 {
      assert (prefix + rest)[1..] == prefix[1..] + rest;
      EmptyPrefixFold(prefix[1..], rest);
    } else {
      assert prefix + rest == rest;
    }
  }

  lemma {:induction false} AllEmptyFold(categories: Categories)
    ensures OuterFold(None, categories).None? <==> forall i :: 0 <= i < |categories| ==> |categories[i].1| == 0
    decreases |categories|
  {
    if |categories| > 0 {
      if |categories[0].1| > 0 {
        SeededFold(categories[0].1[0], categories[1..]);
      } else {
        AllEmptyFold(categories[1..]);
        assert forall i :: 0 < i < |categories| ==> categories[i] == categories[1..][i - 1];
      }
    }
  }

  /**
   * The first non-empty category's element [0] seeds the fold, and the rest
   * of that category is never looked at.
   */
  lemma LastVideoSkipsRestOfSeedCategory(prefix: Categories, key: string, seed: Video, others: seq<Video>, rest: Categories)
    requires forall i :: 0 <= i < |prefix| ==> |prefix[i].1| == 0
    ensures LastVideo(prefix + [(key, [seed] + others)] + rest) == OuterFold(Some(seed), rest)
  {
    var cats := [(key, [seed] + others)] + rest;
    assert prefix + [(key, [seed] + others)] + rest == prefix + cats;
    EmptyPrefixFold(prefix, cats);
    assert cats[1..] == rest;
    assert cats[0].1[0] == seed;
  }

  /**
   * `lastVideo` is the video no smaller, as a raw string, than the seed
   * and than every video of the categories after the seed's.
   */
  lemma LastVideoRule(prefix: Categories, key: string, seed: Video, others: seq<Video>, rest: Categories)
    requires forall i :: 0 <= i < |prefix| ==> |prefix[i].1| == 0
    ensures var r := LastVideo(prefix + [(key, [seed] + others)] + rest);
      && r.Some?
      && !Less(r.value.published, seed.published)
      && (forall i, v :: 0 <= i < |rest| && v in rest[i].1 ==> !Less(r.value.published, v.published))
      && (r.value == seed || exists i :: 0 <= i < |rest| && r.value in rest[i].1)
  {
    LastVideoSkipsRestOfSeedCategory(prefix, key, seed, others, rest);
    SeededFold(seed, rest);
  }

  lemma LastVideoUndefined(categories: Categories)
    ensures LastVideo(categories).None? <==> forall i :: 0 <= i < |categories| ==> |categories[i].1| == 0
  {
    AllEmptyFold(categories);
  }

  /**
   * In a single category holding a video from 1 January 2019 followed by one
   * from 31 December 2019, `lastVideo` is the first: the second is newer and
   * even greater as a raw string, but only element [0] of the first category
   * is ever looked at.
   */
  lemma LastVideoMissesNewer()
    ensures var first := Video("First", "a", "01.01.2019", "", None);
      var second := Video("Second", "b", "31.12.2019", "", None);
      && LastVideo([("talks", [first, second])]) == Some(first)
      && Less(first.published, second.published)
      && WellFormedDate(first.published) && WellFormedDate(second.published)
      && Later(DateKeyOf(second.published), DateKeyOf(first.published))
  {
    var first := Video("First", "a", "01.01.2019", "", None);
    var second := Video("Second", "b", "31.12.2019", "", None);
    LastVideoSkipsRestOfSeedCategory([], "talks", first, [second], []);
    assert [first] + [second] == [first, second];
    assert [] + [("talks", [first, second])] + [] == [("talks", [first, second])];
    LessAtFirstDifference(first.published, second.published, 0);
    NewYear2019();
    NewYearsEve2019();
  }

  /**
   * The evidently intended last video: the first row of the video index with
   * nothing selected, a video at least as new as every other video of every
   * category.
   */
  function NewestVideo(categories: Categories): (r: Option<Video>)
    requires VideosWellFormed(categories)
    ensures r.None? <==> forall i :: 0 <= i < |categories| ==> |categories[i].1| == 0
    ensures r.Some? ==>
      && (exists i :: 0 <= i < |categories| && r.value in categories[i].1)
      && WellFormedDate(r.value.published)
      && (forall i, v :: 0 <= i < |categories| && v in categories[i].1 ==>
            WellFormedDate(v.published) && SortByPublished(r.value.published, v.published) <= 0)
  {
    var all := VideosList(categories, []);
    KeepEverything(categories);
    VideosListContents(categories, []);
    FlattenMembers(categories);
    TotalLengthZero(categories);
    if |all| == 0 then None
    else
      assert all[0] in multiset(Flatten(categories));
      assert all[0] in Flatten(categories);
      NewestVideoBound(categories, all);
      Some(all[0])
  }

  lemma {:induction false} TotalLengthZero(categories: Categories)
    ensures TotalLength(categories) == 0 <==> forall i :: 0 <= i < |categories| ==> |categories[i].1| == 0
    decreases |categories|
  {
    if |categories| > 0 {
      TotalLengthZero(categories[1..]);
      assert forall i :: 0 < i < |categories| ==> categories[i] == categories[1..][i - 1];
    }
  }

  lemma {:induction false} NewestVideoBound(categories: Categories, all: seq<Video>)
    requires VideosWellFormed(categories) && |all| > 0
    requires multiset(all) == multiset(Flatten(categories))
    requires AllWellFormed(all, VideoPublished) && NewestFirst(all, VideoPublished)
    requires forall v :: v in Flatten(categories) <==> exists i :: 0 <= i < |categories| && v in categories[i].1
    ensures forall i, v :: 0 <= i < |categories| && v in categories[i].1 ==>
      WellFormedDate(v.published) && SortByPublished(all[0].published, v.published) <= 0
  {
    forall i, v | 0 <= i < |categories| && v in categories[i].1
      ensures WellFormedDate(v.published) && SortByPublished(all[0].published, v.published) <= 0
    {
      assert v in Flatten(categories);
      assert v in multiset(all);
      var k :| 0 <= k < |all| && all[k] == v;
      assert WellFormedDate(VideoPublished(all[k]));
      if k > 0 {
        assert SortByPublished(VideoPublished(all[0]), VideoPublished(all[k])) <= 0;
      }
    }
  }

  // ---------------------------------------------------------------------
  // Cards and the presentations column
  // ---------------------------------------------------------------------

  /**
   * The video card's title: longer than 60 characters it is cut to its
   * first 60 and `...` appended, otherwise shown as is.
   */
  function DisplayTitle(title: string): (r: string)
    ensures |r| <= 63
    ensures |title| <= 60 ==> r == title
    ensures |title| > 60 ==> |r| == 63 && r[..60] == title[..60] && r[60..] == "..."
  {
    if |title| > 60 then title[..60] + "..." else title
  }

  /** A card's link `target`: `_blank` for `http…` URLs, none (`null`) otherwise. */
  function CardTarget(url: string): (r: Option<string>)
    ensures r.Some? ==> r.value == "_blank"
    ensures r.Some? <==> StartsWith(url, "http")
  {
    if StartsWith(url, "http") then Some("_blank") else None
  }

  datatype Card = Card(heroUrl: string, title: string, description: Option<string>, url: string, target: Option<string>)

  function ArticleCard(name: string, article: Article): Card
  {
    var url := "/articles/" + name;
    Card(article.heroUrl, article.title, Some(article.tldr), url, CardTarget(url))
  }

  function VideoCard(video: Video): Card
  {
    var url := "https://www.youtube.com/watch?v=" + video.youtubeId;
    Card("https://i.ytimg.com/vi/" + video.youtubeId + "/hqdefault.jpg", DisplayTitle(video.title),
      video.description, url, CardTarget(url))
  }

  /**
   * The article card opens in the same tab, the video card in a new one,
   * and the video card's title never exceeds 63 characters.
   */
  lemma CardTargets(name: string, article: Article, video: Video)
    ensures ArticleCard(name, article).target == None
    ensures VideoCard(video).target == Some("_blank")
    ensures |VideoCard(video).title| <= 63
  {
    var articleUrl := "/articles/" + name;
    assert articleUrl[0] == '/';
    var videoUrl := "https://www.youtube.com/watch?v=" + video.youtubeId;
    assert videoUrl[..4] == "http";
  }

  /** `presentations.slice(0, 3)`. */
  function FirstThree(presentations: seq<Video>): (r: seq<Video>)
    ensures |r| == if |presentations| < 3 then |presentations| else 3
    ensures forall i :: 0 <= i < |r| ==> r[i] == presentations[i]
  {
    if |presentations| < 3 then presentations else presentations[..3]
  }

  /**
   * The presentations column: the first three videos of the `presentations`
   * category in manifest order. Without that category the source throws;
   * here that case is `None`.
   */
  function ShownPresentations(categories: Categories): (r: Option<seq<Video>>)
    ensures r.None? <==> forall i :: 0 <= i < |categories| ==> categories[i].0 != "presentations"
    ensures r.Some? ==>
      exists i ::
        && 0 <= i < |categories|
        && categories[i].0 == "presentations"
        && r.value == FirstThree(categories[i].1)
  {
    match Lookup(categories, "presentations")
    case None => None
    case Some(presentations) => Some(FirstThree(presentations))
  }
}
