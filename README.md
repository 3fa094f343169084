# A verified model of the christianalfoni.com blog's page logic

The site is a small Next.js blog. Its pages read one static manifest,
`publisher.json`. The manifest holds articles keyed by slug and videos
grouped by category key. Behind the JSX sits a layer of list and string
logic, and this project models that layer in Dafny:

- **Dates** (`utils.ts`):
  - `createDate` parses a `DD.MM.YYYY` token by setting year, month and day
    one after another on today's `Date`.
  - `createReadableDate` renders "March 05. 2020".
  - `sortByPublished` is the newest-first comparator that every listing uses.
- **Tag selection** (`pages/articles/index.tsx`, `pages/videos/index.tsx`):
  - The selection is a `useState` cell, which `toggleTag` replaces.
  - The article listing is sorted, then filtered by tags.
  - The article tag vocabulary is collected through a `Set`.
  - The video listing keeps the selected categories, concatenates them and sorts the result.
- **Home page** (`pages/index.tsx`):
  - `getInitialProps` picks a "last article" and a "last video".
  - Video titles are truncated.
  - A card's link target depends on its URL.
  - At most three presentations are listed.
- **RSS endpoint** (`pages/api/rss.ts`): a module-level `Feed` gets one
  category, then one item per article in key order.

A date is modelled as a calendar key `(year, zero-based month, day)`.
JSON objects become sequences of `(key, value)` pairs, in `Object.keys`
order. Code that changes state becomes classes and methods:
- the `Date` object (`Dates.JsDate`);
- the selection cell (`TagFilter.TagSelection`);
- the feed (`Rss.Feed`).

Methods model the code that changes state or loops:
- `createDate` as written and corrected (`Dates.CreateDateAsWritten`, `Dates.CreateDate`), over the `Date` setters of `Dates.JsDate`;
- `toggleTag` on the selection cell (`TagFilter.TagSelection.ToggleTag`);
- the feed's `addCategory`/`addItem` and the loop that fills it (`Rss.Feed`, `Rss.BuildFeed`);
- the tag-vocabulary loop (`ArticlesPage.CollectTags`).

The loops carry invariants. The expression-level code (folds, filters,
sorts, string handling) is functions, with lemmas stating their
properties.

The modules follow the source:

| module | file | models |
|---|---|---|
| `Strings` | strings.dfy | JavaScript `split`, `Number` on digit strings, `startsWith`, string `<` |
| `Seqs` | seqs.dfy | no-duplicates and subsequence predicates |
| `Manifest` | manifest.dfy | the `types.ts` records, and `Object.keys` / `o[key]` on JSON objects |
| `Dates` | dates.dfy | `utils.ts` |
| `Sorting` | sorting.dfy | `Array.prototype.sort` with `sortByPublished`, specified as a sorted permutation |
| `TagFilter` | tagfilter.dfy | `toggleTag` and the selection cell |
| `ArticlesPage` | articles.dfy | `pages/articles/index.tsx` |
| `VideosPage` | videos.dfy | `pages/videos/index.tsx` |
| `HomePage` | home.dfy | `pages/index.tsx` |
| `Rss` | rss.dfy | `pages/api/rss.ts` |

The feed holds only articles, in manifest key order and unsorted; no
video is ever added to it (see `Rss.BuildFeed` and
`Rss.FeedLinksAreArticlePages`).

## Model

| member | source | states |
|---|---|---|
| Strings.SplitProperties | utils.ts:6 | `split('.')` yields at least one part, no part contains the separator, and joining the parts with the separator gives the input back |
| Strings.SplitJoin | utils.ts:18 | splitting a join of separator-free parts returns exactly those parts (so `D.M.Y` splits into `[D, M, Y]`) |
| Strings.SplitWithoutSeparator | utils.ts:18 | a string without the separator splits into itself alone |
| Strings.SplitAtFirstSeparator | utils.ts:18 | splitting cuts at the first separator, and the tail splits independently |
| Strings.Split | utils.ts:6 | JavaScript `split` on one character; its properties are in Strings.SplitProperties, Strings.SplitJoin and Strings.SplitAtFirstSeparator |
| Strings.NumeralValue | utils.ts:21-23 | `Number` of a digit string; its values are in Dates.TwoDigitValue and Dates.FourDigitValue |
| Strings.StartsWith | pages/index.tsx:17 | `startsWith`; used by HomePage.CardTarget and Rss.FeedLinksAreArticlePages |
| Strings.Less | pages/index.tsx:337 | JavaScript's string `<`; its order properties are in Strings.LessAtFirstDifference through Strings.LessTotal |
| Strings.LessAtFirstDifference | pages/index.tsx:337 | string `<` is decided by the first differing character |
| Strings.LessIrreflexive | pages/index.tsx:337 | no string is `<` itself |
| Strings.LessAsymmetric | pages/index.tsx:337 | `a < b` excludes `b < a` |
| Strings.LessTransitive | pages/index.tsx:353 | string `<` is transitive |
| Strings.LessTotal | pages/index.tsx:353 | any two strings are equal or ordered one way or the other |
| Seqs.SubsequenceMembers | pages/articles/index.tsx:105-110 | every element of a subsequence is an element of the original |
| Manifest.Keys | pages/articles/index.tsx:105 | `Object.keys` yields one key per entry, in entry order |
| Manifest.Lookup | pages/index.tsx:356 | `o[key]` is undefined exactly when no entry has that key; otherwise it is the value of an entry with that key |
| Dates.DaysInMonth | utils.ts:22-23 | every month has between 28 and 31 days |
| Dates.DateKeyOf | utils.ts:17-26 | the date that a well-formed token denotes exists in the calendar |
| Dates.SplitToken | utils.ts:18 | a token of three numerals `D.M.Y` splits into exactly `[D, M, Y]` |
| Dates.DateKeyOfToken | utils.ts:17-26 | a token of three numerals is well formed exactly when month 1..12 and day 1..days-in-month; then it denotes year `Y`, zero-based month `M - 1` and day `D` |
| Dates.PartsOfToken | utils.ts:18-23 | the parts `[D, M, Y]` are well formed exactly when month 1..12 and day 1..days-in-month, and then they name year `Y`, zero-based month `M - 1` and day `D` |
| Dates.TwoDigitValue | utils.ts:22-23 | `Number` of a two-digit numeral is ten times its first digit plus its second |
| Dates.FourDigitValue | utils.ts:21 | `Number` of a four-digit numeral is its decimal value |
| Dates.TokenDenotes | utils.ts:17-26 | a `DD.MM.YYYY` token spelling an existing date is well formed and denotes the date its digits spell |
| Dates.ReadableDateOfParts | utils.ts:5-9 | `createReadableDate` uses parts 0, 1 and 2 only: any further parts are ignored, and the day and year parts are copied verbatim |
| Dates.CreateReadableDate | utils.ts:5-9 | `createReadableDate`; its output is stated by Dates.ReadableDateOfParts, Dates.ReadableDateOfToken and Dates.ReadableDateExample |
| Dates.MonthLabel | utils.ts:8 | the month name for the month part, empty when its value is outside 1..12; stated through Dates.ReadableDateOfToken |
| Dates.ReadableDateOfToken | utils.ts:3-9 | for a month token 1..12 the result is `months[M - 1] + " " + D + ". " + Y` |
| Dates.ReadableDateExample | utils.ts:3-9 | `"05.03.2020"` renders as `"March 05. 2020"` |
| Dates.OrdinalOrder | utils.ts:14 | the day number used for the subtraction orders valid dates exactly as the calendar does, and is equal only for equal dates |
| Dates.SortByPublished | utils.ts:13-15 | the comparator; its meaning is in Dates.SortByPublishedMeaning, Dates.SortByPublishedAntisymmetric and Dates.SortByPublishedTotalPreorder |
| Dates.SortByPublishedMeaning | utils.ts:13-15 | `sortByPublished(a, b)` is negative exactly when a is later than b, zero exactly when the dates are equal, and positive exactly when b is later |
| Dates.SortByPublishedAntisymmetric | utils.ts:14 | `sortByPublished(a, b) == -sortByPublished(b, a)` |
| Dates.SortByPublishedTotalPreorder | utils.ts:13-15 | the comparator is total and transitive, so it is a valid sort comparator |
| Dates.LaterIsStrictTotalOrder | utils.ts:13-15 | "later than" on date keys is irreflexive, asymmetric, transitive and total |
| Dates.Normalize | utils.ts:21-23 | a `Date` setter's day overflow rolls into the next month: the result is a valid date in the same year, the same number of days after the year's start |
| Dates.JsDate.constructor | utils.ts:19 | `new Date()` holds the clock's current date |
| Dates.JsDate.SetFullYear | utils.ts:21 | `setFullYear` changes the year, and rolls 29 February over to 1 March when the new year is not a leap year |
| Dates.JsDate.SetMonth | utils.ts:22 | `setMonth` changes the month and rolls a day past the new month's end into the following month |
| Dates.JsDate.SetDate | utils.ts:23 | `setDate` changes the day, rolling past the month's end |
| Dates.JsDate.SetFullYearMonthDate | utils.ts:21-23 | setting year, month and day in one step gives exactly that date when it exists |
| Dates.SequentialSetKey | utils.ts:21-23 | the date the three setters leave, from the clock's date; stated by Dates.CreateDateAsWritten, Dates.CreateDateRollsOver and Dates.SequentialSetAgreesEarlyInMonth |
| Dates.CreateDateAsWritten | utils.ts:17-26 | `createDate` as written leaves the date that the three sequential setters produce from today's date |
| Dates.CreateDateRollsOver | utils.ts:21-23 | with the clock on 31 March 2021, `createDate("05.04.2020")` gives 5 May 2020 instead of 5 April 2020 |
| Dates.SequentialSetAgreesEarlyInMonth | utils.ts:21-23 | while the clock's day is at most 28, the sequential setters do give the token's date |
| Dates.CreateDate | utils.ts:17-26 | the corrected `createDate` gives exactly the token's date, whatever the clock says |
| Sorting.PermutationWellFormed | pages/videos/index.tsx:27 | a permutation of well-dated items is well dated |
| Sorting.Insert | pages/videos/index.tsx:27 | inserting into a newest-first list gives a newest-first permutation of the list plus the item |
| Sorting.SortNewestFirst | pages/articles/index.tsx:105 | sorting with `sortByPublished` yields a permutation of the input that is ordered newest first |
| Sorting.SubsequenceNewestFirst | pages/articles/index.tsx:105-110 | dropping items from a newest-first list leaves it newest first |
| Sorting.PrependNewest | pages/articles/index.tsx:105 | a list headed by an element at least as new as the rest is newest first when the rest is |
| Sorting.InsertBelowHead | pages/videos/index.tsx:27 | inserting below a newer head keeps the head first and yields a newest-first permutation |
| Sorting.HeadNewerThanSubsequence | pages/articles/index.tsx:105-110 | the head of a newest-first list is at least as new as every element of any subsequence of its tail |
| TagFilter.RemoveAll | pages/articles/index.tsx:19 | filtering the tag out removes every occurrence of the tag and keeps all other tags, with their multiplicities, in order |
| TagFilter.Toggled | pages/articles/index.tsx:17-23 | the selection after `toggleTag`; stated by TagFilter.ToggleFlipsOnlyThatTag, TagFilter.ToggleShape and the toggle-twice lemmas |
| TagFilter.ToggleFlipsOnlyThatTag | pages/articles/index.tsx:17-23 | after a toggle the tag is selected exactly when it was not before, and every other tag keeps its membership |
| TagFilter.ToggleShape | pages/articles/index.tsx:18-21 | a selected tag is removed everywhere and the rest keep their order; an unselected tag is appended at the end |
| TagFilter.RemoveAllAbsent | pages/articles/index.tsx:19 | removing a tag that is not there changes nothing |
| TagFilter.RemoveAllAppend | pages/articles/index.tsx:19 | removal distributes over concatenation |
| TagFilter.ToggleTwiceAbsent | pages/articles/index.tsx:17-23 | toggling an unselected tag twice restores the exact original list |
| TagFilter.ToggleTwicePresent | pages/articles/index.tsx:17-23 | toggling a selected tag twice restores the same set of tags, with that tag moved to the end |
| TagFilter.ToggleKeepsNoDuplicates | pages/articles/index.tsx:18-22 | a selection without duplicates stays without duplicates |
| TagFilter.SubsequenceNoDuplicates | pages/articles/index.tsx:19 | a subsequence of a duplicate-free list is duplicate free |
| TagFilter.TagSelection.constructor | pages/articles/index.tsx:15 | the selection starts empty, so it holds no tag twice (`Valid`) |
| TagFilter.TagSelection.ToggleTag | pages/articles/index.tsx:17-23 | the cell is replaced by the toggled selection; the tag's membership flips and no other tag's does, and the cell still holds no tag twice (the video page's `toggleTag`, pages/videos/index.tsx:16-22, is the same code on its own cell) |
| ArticlesPage.AnySelectedFold | pages/articles/index.tsx:108 | the `reduce` over an article's tags; stated by ArticlesPage.AnySelectedFoldMeaning |
| ArticlesPage.IsShown | pages/articles/index.tsx:108-110 | the render test; stated by ArticlesPage.VisibilityRule |
| ArticlesPage.Listing | pages/articles/index.tsx:105 | the sorted article keys; a newest-first permutation by Sorting.SortNewestFirst |
| ArticlesPage.ShownArticles | pages/articles/index.tsx:105-110 | the rendered articles; stated by ArticlesPage.ShownArticlesExactly, ArticlesPage.ShownNewestFirst and ArticlesPage.HidingKeepsOrder |
| ArticlesPage.AnySelectedFoldMeaning | pages/articles/index.tsx:108 | the `reduce` over an article's tags is true exactly when the seed is true or some tag is selected |
| ArticlesPage.VisibilityRule | pages/articles/index.tsx:108 | with nothing selected every article is shown; otherwise an article is shown exactly when at least one of its tags is selected (OR, not AND) |
| ArticlesPage.FilterShown | pages/articles/index.tsx:105-110 | the rendered items are the listing's entries that pass the tag test, in listing order |
| ArticlesPage.ShownArticlesExactly | pages/articles/index.tsx:105-110 | an article is listed exactly when it is in the manifest and passes the tag test |
| ArticlesPage.ShownNewestFirst | pages/articles/index.tsx:105 | the shown articles are ordered newest first |
| ArticlesPage.HidingKeepsOrder | pages/articles/index.tsx:105-110 | nothing selected shows the whole sorted listing, and a selection only hides articles without reordering the rest |
| ArticlesPage.FilterAllShown | pages/articles/index.tsx:108 | with nothing selected no item is replaced by `null` |
| ArticlesPage.AllTags | pages/articles/index.tsx:135-139 | the tags visited are exactly the tags of the articles |
| ArticlesPage.SetAdd | pages/articles/index.tsx:137 | `Set.add` in insertion order; stated through ArticlesPage.Dedup |
| ArticlesPage.Dedup | pages/articles/index.tsx:137 | adding tags to a `Set` keeps each once and nothing else |
| ArticlesPage.CollectTags | pages/articles/index.tsx:135-143 | the tag vocabulary holds each tag that occurs on some article exactly once, and nothing else, in first-occurrence order |
| ArticlesPage.DedupStep | pages/articles/index.tsx:137 | adding one more tag to the `Set` is one `SetAdd` step |
| ArticlesPage.AllTagsStep | pages/articles/index.tsx:136 | visiting one more article appends its tags |
| VideosPage.IsKept | pages/videos/index.tsx:25 | the key filter; stated through VideosPage.KeptCategories |
| VideosPage.ConcatFold | pages/videos/index.tsx:26 | the `reduce(concat)`; equal to the flattening by VideosPage.ConcatFoldIsFlatten |
| VideosPage.VideosList | pages/videos/index.tsx:24-27 | `videosList`; stated by VideosPage.VideosListContents, VideosPage.NothingSelectedListsAll and VideosPage.SelectionListsSelectedCategories |
| VideosPage.KeptCategories | pages/videos/index.tsx:24-25 | the kept categories are those whose key is selected (all of them when nothing is selected), in key order |
| VideosPage.ConcatFoldIsFlatten | pages/videos/index.tsx:26 | the `reduce(concat)` appends the categories' videos, category by category |
| VideosPage.FlattenMembers | pages/videos/index.tsx:26 | the concatenation has the summed length and holds exactly the categories' videos |
| VideosPage.FlattenWellFormed | pages/videos/index.tsx:26 | concatenating well-dated categories gives a well-dated list |
| VideosPage.KeptWellFormed | pages/videos/index.tsx:25 | the kept categories are well dated |
| VideosPage.VideosListContents | pages/videos/index.tsx:24-27 | `videosList` is a permutation of the kept categories' videos, its length is their summed length, and it is newest first |
| VideosPage.KeepEverything | pages/videos/index.tsx:25 | with nothing selected every category is kept |
| VideosPage.NothingSelectedListsAll | pages/videos/index.tsx:24-27 | with nothing selected `videosList` is a permutation of all videos of all categories |
| VideosPage.SelectionListsSelectedCategories | pages/videos/index.tsx:25-26 | with a selection a video is listed exactly when it belongs to a category whose key is selected |
| VideosPage.KeptMembers | pages/videos/index.tsx:25-26 | with a selection, a video is in a kept category exactly when it is in a category whose key is selected |
| VideosPage.KeptDropsUnselected | pages/videos/index.tsx:25 | removing an unselected category does not change the kept categories |
| VideosPage.UnselectedCategoryContributesNothing | pages/videos/index.tsx:25 | once something is selected, an unselected category adds nothing to `videosList` |
| HomePage.NotLessTransitive | pages/index.tsx:353 | "not less than" on strings is transitive |
| HomePage.FirstByRawPublished | pages/index.tsx:336-338 | the entry that the ascending raw-string sort puts first is one whose `published` string no other entry's is `<` |
| HomePage.RawMinimumStep | pages/index.tsx:337 | a raw-string minimum of the tail that is not below the head makes the head a minimum of the tail |
| HomePage.LastArticleName | pages/index.tsx:336-338 | `lastArticleName` is absent exactly for an empty manifest; otherwise it is the key of an article whose raw `published` string is `<=` every other article's |
| HomePage.NewYear2019 | pages/index.tsx:336-338 | `"01.01.2019"` is well formed and denotes 1 January 2019 |
| HomePage.NewYearsEve2019 | pages/index.tsx:347-355 | `"31.12.2019"` is well formed and denotes 31 December 2019 |
| HomePage.March2020 | pages/index.tsx:336-338 | `"05.03.2020"` is well formed and denotes 5 March 2020 |
| HomePage.LastArticleNotNewest | pages/index.tsx:336-338 | for articles of 1 January 2019 and 5 March 2020, `lastArticleName` is the older one |
| HomePage.NewestArticleName | pages/index.tsx:336-338 | the corrected last article is absent exactly for an empty manifest; otherwise it is at least as new as every article by `sortByPublished` |
| HomePage.NewestArticleHeadsListing | pages/index.tsx:336-338 | the corrected last article is the first row of the article index with nothing selected |
| HomePage.InnerFold | pages/index.tsx:352-354 | the inner `reduce` keeps the seed or a video of the category, and the result is not `<` the seed or any video of the category |
| HomePage.InnerFoldKeepsEarlierOnTies | pages/index.tsx:352-354 | the replacement is strict, so the first of several videos with the greatest raw token wins: every video seen before the result has a strictly smaller token |
| HomePage.FirstMaximumStep | pages/index.tsx:353 | one step of the inner fold keeps the result a first maximum of the seed and the videos |
| HomePage.OuterFold | pages/index.tsx:347-355 | the outer `reduce` over category keys; stated by HomePage.SeededFold, HomePage.EmptyPrefixFold and HomePage.AllEmptyFold |
| HomePage.LastVideo | pages/index.tsx:347-355 | `lastVideo` as written; stated by HomePage.LastVideoRule, HomePage.LastVideoUndefined and HomePage.LastVideoMissesNewer |
| HomePage.SeededFold | pages/index.tsx:347-355 | once seeded, the outer fold keeps a video that is not `<` the seed or any later video, and is the seed or one of those videos |
| HomePage.EmptyPrefixFold | pages/index.tsx:348-349 | empty categories before the first non-empty one leave the fold unseeded |
| HomePage.AllEmptyFold | pages/index.tsx:347-355 | the fold stays unseeded exactly when every category is empty |
| HomePage.LastVideoSkipsRestOfSeedCategory | pages/index.tsx:347-351 | `lastVideo` starts from element `[0]` of the first non-empty category and never looks at the rest of that category |
| HomePage.LastVideoRule | pages/index.tsx:347-355 | `lastVideo` is not `<` the seed or any video in the later categories, and is one of them |
| HomePage.LastVideoUndefined | pages/index.tsx:347-355 | `lastVideo` is undefined exactly when every category is empty |
| HomePage.LastVideoMissesNewer | pages/index.tsx:347-355 | with one category holding videos of 1 January 2019 and 31 December 2019, `lastVideo` is the older one |
| HomePage.NewestVideo | pages/index.tsx:347-355 | the corrected last video is absent exactly when every category is empty; otherwise it is a video of some category that is at least as new as every video by `sortByPublished` |
| HomePage.TotalLengthZero | pages/videos/index.tsx:26 | the summed length is zero exactly when every category is empty |
| HomePage.NewestVideoBound | pages/videos/index.tsx:27 | the head of a newest-first permutation of all videos is at least as new as each of them |
| HomePage.DisplayTitle | pages/index.tsx:183-187 | a title longer than 60 characters becomes its first 60 characters plus `...`, 63 in all; a shorter one is unchanged; the result never exceeds 63 |
| HomePage.CardTarget | pages/index.tsx:17 | a card's target is `_blank` exactly when its URL starts with `http`, and absent otherwise |
| HomePage.ArticleCard | pages/index.tsx:175-180 | the last-article card; stated by HomePage.CardTargets |
| HomePage.VideoCard | pages/index.tsx:181-190 | the last-video card; stated by HomePage.CardTargets |
| HomePage.CardTargets | pages/index.tsx:175-190 | the last-article card opens in the same tab, the last-video card in a new one, and the video card's title is at most 63 characters |
| HomePage.FirstThree | pages/index.tsx:290 | `slice(0, 3)` keeps the first `min(3, n)` presentations, in manifest order |
| HomePage.ShownPresentations | pages/index.tsx:356 | the presentations column is absent exactly when there is no `presentations` category; otherwise it shows the first three of that category |
| Rss.Feed.constructor | pages/api/rss.ts:7-19 | a new feed has its options, no categories and no items |
| Rss.Feed.AddCategory | pages/api/rss.ts:21 | `addCategory` appends one category and leaves the items alone |
| Rss.Feed.AddItem | pages/api/rss.ts:26-31 | `addItem` appends one item and leaves the categories alone |
| Rss.ArticleItem | pages/api/rss.ts:26-31 | the item one article contributes; stated by Rss.ArticleItems |
| Rss.ArticleItems | pages/api/rss.ts:23-32 | one item per article key in key order; item i has the article's title, link `https://www.christianalfoni.com/articles/` plus its key, the tldr as description, and the article's date |
| Rss.ArticleItemsStep | pages/api/rss.ts:23-32 | each loop iteration appends the current article's item |
| Rss.BuildFeed | pages/api/rss.ts:7-32 | the feed has the site's options, exactly the one category `development`, and exactly the article items; the manifest's videos play no part |
| Rss.DifferentPrefixes | pages/api/rss.ts:28 | a string cannot start with two prefixes that differ at a shared position |
| Rss.ArticleLinkIsNotVideo | pages/api/rss.ts:28 | a link built from the article prefix starts with that prefix and not with the YouTube watch prefix |
| Rss.FeedLinksAreArticlePages | pages/api/rss.ts:23-32 | every item links to an article page of the site and never to a YouTube video, and distinct slugs give distinct items |

## Left out

- The `Date` object beyond its calendar date. This covers the time of day that `createDate` inherits from `new Date()`, time zones, and the millisecond range of `Date`. The clock is a parameter (`now`).
- Dates.SortByPublished: compares the tokens' own dates (`Dates.DateKeyOf`), not the dates the as-written `createDate` produces (`Dates.SequentialSetKey`). When the clock's day is 29, 30 or 31 those can differ (see Findings), and then the source's listings can be out of order: with the clock on 31 March 2021, `05.04.2020` becomes 5 May 2020 and sorts above `03.05.2020`. So ArticlesPage.ShownNewestFirst, VideosPage.VideosListContents, HomePage.NewestArticleName and HomePage.NewestVideo hold for the source only while the clock's day is at most 28 (Dates.SequentialSetAgreesEarlyInMonth). The model also drops the time of day that the two `getTime()` values inherit, keeping only the whole-day difference's sign and zero.
- Dates.DateKeyOf: only well-formed tokens are modelled, i.e. three digit strings naming an existing date. `Number` on other spellings (`" 5"`, `"+5"`, `"1e1"`) and the `NaN` that malformed tokens produce are not. Every listing therefore requires well-dated manifests.
- Dates.MonthLabel: a month token that is not a plain digit string gives the empty name, even where JavaScript's `Number` would accept it.
- Dates.JsDate.SetMonth: modelled for months 0..11 only. Dates.JsDate.SetDate: modelled for days 1..31 only. A well-formed token never produces other values.
- Sorting.SortNewestFirst: `Array.prototype.sort` is specified as a sorted permutation. The engine's algorithm is not modelled, and neither is its order among equal dates.
- HomePage.LastArticleName: on equal raw strings, the comparator `a > b ? 1 : -1` is inconsistent, so which article wins depends on the engine. The model picks the earlier key. Its contract claims only minimality, which holds for every choice.
- `Object.keys` lists integer-like keys first, in numeric order. The model takes the manifest's key order as given.
- JavaScript strings are UTF-16. `length`, `substr` and `<` work on code units, while the model works on Dafny characters. The two agree outside surrogate pairs.
- `feed.rss2()`: the XML serialisation and escaping are done by the external `feed` library. They are not modelled, and no escaping claim is made.
- The HTTP handler (pages/api/rss.ts:36-40) is I/O: it sets the content type `application/rss+xml` and status 200 and sends the feed string rendered at load time. It is not modelled.
- Rss.FeedItem: an item holds the calendar value of the `Date` passed to `addItem`, not a reference to the object.
- Rss.BuildFeed: uses the corrected `Dates.CreateDate`. Dates.CreateDateAsWritten models what the source's dates actually are (see Findings).
- React rendering, JSX, `Link`, `<style jsx>` and `useState` scheduling. `TagFilter.TagSelection` models only the cell's value.
- The crashes on an empty manifest are modelled as absent results: `publisher.articles[undefined].title`, `undefined.slice`, and reading `lastVideo.title` when every category is empty.
- components/Page.tsx, pages/_document.tsx, next.config.js and the article page pages/articles/[name].tsx (markdown rendering) are not part of this model.

## Findings

| source | as written | input that shows it | evidently intended | confidence | as-written member | corrected member |
|---|---|---|---|---|---|---|
| utils.ts:21-23 | `createDate` sets year, then month, then day on today's `Date`; the intermediate date can overflow into the next month, and the listings sort by these dates, so on such days they can be out of order | clock on 31 March 2021, token `05.04.2020`: 31 April rolls to 1 May, so the result is 5 May 2020 | the date the token names, 5 April 2020 | high; not executed | Dates.CreateDateAsWritten, Dates.CreateDateRollsOver | Dates.CreateDate |
| pages/index.tsx:336-338 | "last article" is the first key of an ascending sort on raw `DD.MM.YYYY` strings, which compares day of month first | articles of `01.01.2019` and `05.03.2020`: the 2019 article is picked | the newest article, as `sortByPublished` orders them | medium; not executed | HomePage.LastArticleName, HomePage.LastArticleNotNewest | HomePage.NewestArticleName |
| pages/index.tsx:347-355 | "last video" seeds with element `[0]` of the first non-empty category and skips the rest of that category; later comparisons are on raw strings | one category holding videos of `01.01.2019` then `31.12.2019`: the 2019-01-01 video is picked | the newest video over all categories | medium; not executed | HomePage.LastVideo, HomePage.LastVideoMissesNewer | HomePage.NewestVideo |
