/**
 * The video index (`pages/videos/index.tsx`): the categories whose key is
 * selected are concatenated and sorted newest first.
 */
module VideosPage {
  import opened Manifest
  import opened Seqs
  import opened Dates
  import opened Sorting

  /** A category key passes the filter when nothing is selected or the key itself is selected. */
  predicate IsKept(selected: seq<string>, key: string)
  {
    |selected| == 0 || key in selected
  }

  /** The category keys that pass the filter, each kept with its videos, in key order. */
  function KeptCategories(categories: Categories, selected: seq<string>): (r: Categories)
    ensures IsSubsequence(r, categories)
    ensures forall c :: c in r <==> c in categories && IsKept(selected, c.0)
  {
    if |categories| == 0 then []
    else
      var rest := KeptCategories(categories[1..], selected);
      assert categories == [categories[0]] + categories[1..];
      if IsKept(selected, categories[0].0) then
        assert ([categories[0]] + rest)[1..] == rest;
        [categories[0]] + rest
      else
        assert IsSubsequence(rest, categories) by {
          if |rest| > 0 {
            assert IsSubsequence(rest, categories[1..]);
          }
        }
        rest
  }

  /** The fold that appends each kept category's videos to the accumulator, in key order. */
  function ConcatFold(aggr: seq<Video>, categories: Categories): seq<Video>
    decreases |categories|
  {
    if |categories| == 0 then aggr else ConcatFold(aggr + categories[0].1, categories[1..])
  }

  /** All videos of the categories, category by category. */
  function Flatten(categories: Categories): seq<Video>
  {
    if |categories| == 0 then [] else categories[0].1 + Flatten(categories[1..])
  }

  /** The number of videos in the categories. */
  function TotalLength(categories: Categories): nat
  {
    if |categories| == 0 then 0 else |categories[0].1| + TotalLength(categories[1..])
  }

  lemma {:induction false} ConcatFoldIsFlatten(aggr: seq<Video>, categories: Categories)
    ensures ConcatFold(aggr, categories) == aggr + Flatten(categories)
    decreases |categories|
  {
    if |categories| > 0 {
      ConcatFoldIsFlatten(aggr + categories[0].1, categories[1..]);
      assert aggr + categories[0].1 + Flatten(categories[1..]) == aggr + (categories[0].1 + Flatten(categories[1..]));
    }
  }

  lemma {:induction false} FlattenMembers(categories: Categories)
    ensures |Flatten(categories)| == TotalLength(categories)
    ensures forall v :: v in Flatten(categories) <==> exists i :: 0 <= i < |categories| && v in categories[i].1
    decreases |categories|
  {
    if |categories| > 0 {
      FlattenMembers(categories[1..]);
      forall v | v in Flatten(categories)
        ensures exists i :: 0 <= i < |categories| && v in categories[i].1
      {
        if v !in categories[0].1 {
          var i :| 0 <= i < |categories[1..]| && v in categories[1..][i].1;
          assert categories[i + 1] == categories[1..][i];
        }
      }
      forall v | exists i :: 0 <= i < |categories| && v in categories[i].1
        ensures v in Flatten(categories)
      {
        var i :| 0 <= i < |categories| && v in categories[i].1;
        if i > 0 {
          assert categories[1..][i - 1] == categories[i];
        }
      }
    }
  }

  function VideoPublished(v: Video): string
  {
    v.published
  }

  predicate VideosWellFormed(categories: Categories)
  {
    forall i :: 0 <= i < |categories| ==> AllWellFormed(categories[i].1, VideoPublished)
  }

  lemma {:induction false} FlattenWellFormed(categories: Categories)
    requires VideosWellFormed(categories)
    ensures AllWellFormed(Flatten(categories), VideoPublished)
    decreases |categories|
  {
    if |categories| > 0 {
      assert VideosWellFormed(categories[1..]) by {
        assert forall i :: 0 <= i < |categories| - 1 ==> categories[1..][i] == categories[i + 1];
      }
      FlattenWellFormed(categories[1..]);
      var head, tail := categories[0].1, Flatten(categories[1..]);
      assert AllWellFormed(categories[0].1, VideoPublished);
      assert forall i :: |head| <= i < |head| + |tail| ==> (head + tail)[i] == tail[i - |head|];
    }
  }

  lemma KeptWellFormed(categories: Categories, selected: seq<string>)
    requires VideosWellFormed(categories)
    ensures VideosWellFormed(KeptCategories(categories, selected))
  {
    var kept := KeptCategories(categories, selected);
    forall i | 0 <= i < |kept|
      ensures AllWellFormed(kept[i].1, VideoPublished)
    {
      assert kept[i] in categories;
      var j :| 0 <= j < |categories| && categories[j] == kept[i];
    }
  }

  /** `videosList`: the kept categories' videos, concatenated and sorted. */
  function VideosList(categories: Categories, selected: seq<string>): seq<Video>
    requires VideosWellFormed(categories)
  {
    var kept := KeptCategories(categories, selected);
    ConcatFoldIsFlatten([], kept);
    KeptWellFormed(categories, selected);
    FlattenWellFormed(kept);
    SortNewestFirst(ConcatFold([], kept), VideoPublished)
  }

  /**
   * The list holds, with their multiplicities, exactly the videos of the
   * kept categories, as many as those categories hold together, newest first.
   */
  lemma VideosListContents(categories: Categories, selected: seq<string>)
    requires VideosWellFormed(categories)
    ensures multiset(VideosList(categories, selected)) == multiset(Flatten(KeptCategories(categories, selected)))
    ensures |VideosList(categories, selected)| == TotalLength(KeptCategories(categories, selected))
    ensures AllWellFormed(VideosList(categories, selected), VideoPublished)
    ensures NewestFirst(VideosList(categories, selected), VideoPublished)
  {
    var kept := KeptCategories(categories, selected);
    ConcatFoldIsFlatten([], kept);
    FlattenMembers(kept);
    assert [] + Flatten(kept) == Flatten(kept);
  }

  lemma {:induction false} KeepEverything(categories: Categories)
    ensures KeptCategories(categories, []) == categories
    decreases |categories|
  {
    if |categories| > 0 {
      KeepEverything(categories[1..]);
      assert categories == [categories[0]] + categories[1..];
    }
  }

  /** With nothing selected the list is a permutation of all videos of all categories. */
  lemma NothingSelectedListsAll(categories: Categories)
    requires VideosWellFormed(categories)
    ensures multiset(VideosList(categories, [])) == multiset(Flatten(categories))
  {
    KeepEverything(categories);
    VideosListContents(categories, []);
  }

  /**
   * With a selection, a video is listed exactly when it belongs to a
   * category whose key is selected: the filter is on category keys, not on
   * anything a video carries.
   */
  lemma SelectionListsSelectedCategories(categories: Categories, selected: seq<string>)
    requires VideosWellFormed(categories) && |selected| > 0
    ensures forall v :: v in VideosList(categories, selected) <==>
      exists i :: 0 <= i < |categories| && categories[i].0 in selected && v in categories[i].1
  {
    var kept := KeptCategories(categories, selected);
    VideosListContents(categories, selected);
    FlattenMembers(kept);
    forall v
      ensures v in VideosList(categories, selected) <==> v in Flatten(kept)
    {
      assert v in VideosList(categories, selected) <==> v in multiset(VideosList(categories, selected));
      assert v in Flatten(kept) <==> v in multiset(Flatten(kept));
    }
    KeptMembers(categories, selected);
    assert forall v :: v in Flatten(kept) <==> InSomeCategory(kept, v);
  }

  predicate InSomeCategory(categories: Categories, v: Video)
  {
    exists i :: 0 <= i < |categories| && v in categories[i].1
  }

  predicate InSelectedCategory(categories: Categories, selected: seq<string>, v: Video)
  {
    exists i :: 0 <= i < |categories| && categories[i].0 in selected && v in categories[i].1
  }

  /** A video is in a kept category exactly when it is in a category whose key is selected. */
  lemma KeptMembers(categories: Categories, selected: seq<string>)
    requires |selected| > 0
    ensures forall v :: InSomeCategory(KeptCategories(categories, selected), v) <==> InSelectedCategory(categories, selected, v)
  {
    var kept := KeptCategories(categories, selected);
    forall v | InSomeCategory(kept, v)
      ensures InSelectedCategory(categories, selected, v)
    {
      var i :| 0 <= i < |kept| && v in kept[i].1;
      assert kept[i] in kept;
      var j :| 0 <= j < |categories| && categories[j] == kept[i];
    }
    forall v | InSelectedCategory(categories, selected, v)
      ensures InSomeCategory(kept, v)
    {
      var i :| 0 <= i < |categories| && categories[i].0 in selected && v in categories[i].1;
      assert categories[i] in categories;
      assert categories[i] in kept;
      var j :| 0 <= j < |kept| && kept[j] == categories[i];
    }
  }

  lemma {:induction false} KeptDropsUnselected(categories: Categories, selected: seq<string>, i: nat)
    requires i < |categories| && |selected| > 0 && categories[i].0 !in selected
    ensures KeptCategories(categories[..i] + categories[i + 1..], selected) == KeptCategories(categories, selected)
    decreases i
  {
    var rest := categories[..i] + categories[i + 1..];
    if i == 0 {
      assert rest == categories[1..];
    } else {
      KeptDropsUnselected(categories[1..], selected, i - 1);
      assert rest[1..] == categories[1..][..i - 1] + categories[1..][i..];
      assert rest[0] == categories[0];
    }
  }

  /**
   * Once something is selected, a category whose key is not selected adds
   * nothing: the list is the same as without that category.
   */
  lemma UnselectedCategoryContributesNothing(categories: Categories, selected: seq<string>, i: nat)
    requires VideosWellFormed(categories)
    requires i < |categories| && |selected| > 0 && categories[i].0 !in selected
    ensures VideosWellFormed(categories[..i] + categories[i + 1..])
    ensures VideosList(categories[..i] + categories[i + 1..], selected) == VideosList(categories, selected)
  {
    var rest := categories[..i] + categories[i + 1..];
    forall k | 0 <= k < |rest|
      ensures AllWellFormed(rest[k].1, VideoPublished)
    {
      if k < i {
        assert rest[k] == categories[k];
      } else {
        assert rest[k] == categories[k + 1];
      }
    }
    KeptDropsUnselected(categories, selected, i);
  }
}
