/**
 * The `publisher.json` manifest as the pages read it. JSON objects become
 * sequences of (key, value) pairs in `Object.keys` order.
 */
module Manifest {

  datatype Option<T> = None | Some(value: T)

  datatype Article = Article(
    title: string,
    tldr: string,
    published: string,   // `DD.MM.YYYY`
    tags: seq<string>,
    heroUrl: string)

  datatype Video = Video(
    title: string,
    youtubeId: string,
    published: string,   // `DD.MM.YYYY`
    duration: string,
    description: Option<string>)

  /** `publisher.articles`: article slug to article. */
  type Articles = seq<(string, Article)>

  /** `publisher.videos`: category key to that category's videos. */
  type Categories = seq<(string, seq<Video>)>

  datatype Publisher = Publisher(articles: Articles, videos: Categories)

  /** Keys of a JSON object are unique. */
  predicate DistinctKeys<V>(entries: seq<(string, V)>)
  {
    forall i, j :: 0 <= i < j < |entries| ==> entries[i].0 != entries[j].0
  }

  /** `Object.keys(o)`. */
  function Keys<V>(entries: seq<(string, V)>): (keys: seq<string>)
    ensures |keys| == |entries|
    ensures forall i :: 0 <= i < |entries| ==> keys[i] == entries[i].0
  {
    if |entries| == 0 then [] else [entries[0].0] + Keys(entries[1..])
  }

  /** `o[key]`, undefined when the key is absent. */
  function Lookup<V>(entries: seq<(string, V)>, key: string): (r: Option<V>)
    ensures r.None? <==> forall i :: 0 <= i < |entries| ==> entries[i].0 != key
    ensures r.Some? ==> exists i :: 0 <= i < |entries| && entries[i] == (key, r.value)
  {
    if |entries| == 0 then None
    else if entries[0].0 == key then Some(entries[0].1)
    else
      var r := Lookup(entries[1..], key);
      assert r.Some? ==> exists i :: 1 <= i < |entries| && entries[i] == (key, r.value) by {
        if r.Some? {
          var i :| 0 <= i < |entries[1..]| && entries[1..][i] == (key, r.value);
          assert entries[i + 1] == (key, r.value);
        }
      }
      r
  }
}
