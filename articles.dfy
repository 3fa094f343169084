/**
 * The article index (`pages/articles/index.tsx`): the tag vocabulary built
 * in `getInitialProps`, and the newest-first listing narrowed by the tag
 * selection.
 */
module ArticlesPage {
  import opened Manifest
  import opened Seqs
  import opened Dates
  import opened Sorting

  /** The render's fold over an article's tags: the seed, or-ed with whether each tag is selected. */
  function AnySelectedFold(aggr: bool, tags: seq<string>, selected: seq<string>): bool
    decreases |tags|
  {
    if |tags| == 0 then aggr else AnySelectedFold(aggr || tags[0] in selected, tags[1..], selected)
  }

  lemma {:induction false} AnySelectedFoldMeaning(aggr: bool, tags: seq<string>, selected: seq<string>)
    ensures AnySelectedFold(aggr, tags, selected) <==>
      aggr || exists i :: 0 <= i < |tags| && tags[i] in selected
    decreases |tags|
  {
    if |tags| > 0 {
      AnySelectedFoldMeaning(aggr || tags[0] in selected, tags[1..], selected);
      if exists i :: 0 <= i < |tags| && tags[i] in selected {
        var i :| 0 <= i < |tags| && tags[i] in selected;
        if i > 0 {
          assert tags[1..][i - 1] in selected;
        }
      }
      if exists i :: 0 <= i < |tags[1..]| && tags[1..][i] in selected {
        var i :| 0 <= i < |tags[1..]| && tags[1..][i] in selected;
        assert tags[i + 1] in selected;
      }
    }
  }

  /** The render test: an article is hidden when tags are selected and none of its tags is. */
  predicate IsShown(selected: seq<string>, article: Article)
  {
    !(|selected| > 0 && !AnySelectedFold(false, article.tags, selected))
  }

  /**
   * With nothing selected every article is shown; otherwise an article is
   * shown exactly when at least one of its tags is selected.
   */
  lemma VisibilityRule(selected: seq<string>, article: Article)
    ensures |selected| == 0 ==> IsShown(selected, article)
    ensures |selected| > 0 ==>
      (IsShown(selected, article) <==> exists i :: 0 <= i < |article.tags| && article.tags[i] in selected)
  {
    AnySelectedFoldMeaning(false, article.tags, selected);
  }

  function EntryPublished(entry: (string, Article)): string
  {
    entry.1.published
  }

  predicate ArticlesWellFormed(articles: Articles)
  {
    AllWellFormed(articles, EntryPublished)
  }

  /** The article keys sorted with `sortByPublished` on their articles, kept with their articles. */
  function Listing(articles: Articles): (r: Articles)
    requires ArticlesWellFormed(articles)
  {
    SortNewestFirst(articles, EntryPublished)
  }

  /** The entries a render keeps: those whose item is not replaced by `null`. */
  function FilterShown(entries: Articles, selected: seq<string>): (r: Articles)
    ensures IsSubsequence(r, entries)
    ensures forall e :: e in r <==> e in entries && IsShown(selected, e.1)
  {
    if |entries| == 0 then []
    else
      var rest := FilterShown(entries[1..], selected);
      assert entries == [entries[0]] + entries[1..];
      if IsShown(selected, entries[0].1) then
        assert ([entries[0]] + rest)[1..] == rest;
        [entries[0]] + rest
      else
        assert IsSubsequence(rest, entries) by {
          if |rest| > 0 {
            assert IsSubsequence(rest, entries[1..]);
          }
        }
        rest
  }

  /** The articles the listing shows for a selection, in display order. */
  function ShownArticles(articles: Articles, selected: seq<string>): Articles
    requires ArticlesWellFormed(articles)
  {
    FilterShown(Listing(articles), selected)
  }

  /** The slugs of the shown articles, each linking to `/articles/<slug>`. */
  function ShownNames(articles: Articles, selected: seq<string>): seq<string>
    requires ArticlesWellFormed(articles)
  {
    Keys(ShownArticles(articles, selected))
  }

  /** An article is listed exactly when it is in the manifest and passes the tag test. */
  lemma ShownArticlesExactly(articles: Articles, selected: seq<string>)
    requires ArticlesWellFormed(articles)
    ensures forall e :: e in ShownArticles(articles, selected) <==> e in articles && IsShown(selected, e.1)
  {
    var listing := Listing(articles);
    forall e
      ensures e in listing <==> e in articles
    {
      assert e in listing <==> e in multiset(listing);
      assert e in articles <==> e in multiset(articles);
    }
  }

  /** The shown articles are newest first. */
  lemma ShownNewestFirst(articles: Articles, selected: seq<string>)
    requires ArticlesWellFormed(articles)
    ensures AllWellFormed(ShownArticles(articles, selected), EntryPublished)
    ensures NewestFirst(ShownArticles(articles, selected), EntryPublished)
  {
    SubsequenceNewestFirst(ShownArticles(articles, selected), Listing(articles), EntryPublished);
  }

  /**
   * Nothing selected shows the whole sorted listing, and a selection only
   * hides articles: the ones left keep their relative order.
   */
  lemma HidingKeepsOrder(articles: Articles, selected: seq<string>)
    requires ArticlesWellFormed(articles)
    ensures ShownArticles(articles, []) == Listing(articles)
    ensures IsSubsequence(ShownArticles(articles, selected), ShownArticles(articles, []))
  {
    FilterAllShown(Listing(articles));
  }

  lemma {:induction false} FilterAllShown(entries: Articles)
    ensures FilterShown(entries, []) == entries
    decreases |entries|
  {
    if |entries| > 0 {
      FilterAllShown(entries[1..]);
      assert entries == [entries[0]] + entries[1..];
    }
  }

  /** The tags of all articles in manifest order, repeats included. */
  function AllTags(articles: Articles): (r: seq<string>)
    ensures forall t :: t in r <==> exists i :: 0 <= i < |articles| && t in articles[i].1.tags
  {
    if |articles| == 0 then []
    else
      var init := articles[..|articles| - 1];
      var r := AllTags(init) + articles[|articles| - 1].1.tags;
      assert forall i :: 0 <= i < |init| ==> init[i] == articles[i];
      r
  }

  /** `set.add(tag)` on a JavaScript `Set`, which iterates in insertion order. */
  function SetAdd(entries: seq<string>, tag: string): seq<string>
  {
    if tag in entries then entries else entries + [tag]
  }

  /** The `Set` built by adding `tags` one by one to an empty one. */
  function Dedup(tags: seq<string>): (r: seq<string>)
    ensures NoDuplicates(r)
    ensures forall t :: t in r <==> t in tags
  {
    if |tags| == 0 then []
    else
      var init := tags[..|tags| - 1];
      var r := SetAdd(Dedup(init), tags[|tags| - 1]);
      assert tags == init + [tags[|tags| - 1]];
      r
  }

  /**
   * `getInitialProps`'s tag vocabulary: `Array.from` of a `Set` filled by
   * `aggr.add(tag)` for every tag of every article. Each tag that occurs on
   * some article is in it exactly once, and nothing else is.
   */
  method CollectTags(articles: Articles) returns (tags: seq<string>)
    ensures tags == Dedup(AllTags(articles))
    ensures NoDuplicates(tags)
    ensures forall t :: t in tags <==> exists i :: 0 <= i < |articles| && t in articles[i].1.tags
  {
    tags := [];
    for i := 0 to |articles|
      invariant tags == Dedup(AllTags(articles[..i]))
    {
      var articleTags := articles[i].1.tags;
      ghost var before := AllTags(articles[..i]);
      assert before + articleTags[..0] == before;
      for j := 0 to |articleTags|
        invariant tags == Dedup(before + articleTags[..j])
      {
        DedupStep(before, articleTags, j);
        tags := SetAdd(tags, articleTags[j]);
      }
      AllTagsStep(articles, i);
      assert articleTags[..|articleTags|] == articleTags;
    }
    assert articles[..|articles|] == articles;
  }

  lemma DedupStep(before: seq<string>, tags: seq<string>, j: nat)
    requires j < |tags|
    ensures Dedup(before + tags[..j + 1]) == SetAdd(Dedup(before + tags[..j]), tags[j])
  {
    var seen := before + tags[..j + 1];
    assert seen[..|seen| - 1] == before + tags[..j];
  }

  lemma AllTagsStep(articles: Articles, i: nat)
    requires i < |articles|
    ensures AllTags(articles[..i + 1]) == AllTags(articles[..i]) + articles[i].1.tags
  {
    assert articles[..i + 1][..i] == articles[..i];
  }
}
