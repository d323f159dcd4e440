/**
 * The fallback orchestrator (`get_papers_from_arxiv_rss_api`) and the
 * multi-category driver (`get_papers`). The outside world is one record of
 * collaborators: the clock, the feed fetcher, the feed timestamp parser, the
 * search service and the HTML unescaper.
 *
 * Each search is a request of its own: `search(n, q)` is the answer to the
 * `n`-th search issued for a category (0 the first, 1 the retry), so a retry
 * that repeats the first query may still be answered differently.
 */
module Pipeline {
  import opened Wrappers
  import opened Papers
  import opened Timestamps
  import opened Rss
  import opened Api
  import opened FilterMap

  datatype Env = Env(
    now: Time,
    fetchFeed: FeedRequest -> Feed,
    parseTimestamp: string -> Option<Time>,
    search: (nat, ApiQuery) -> seq<ApiResult>,
    unescape: string -> string)

  /** The papers returned for one category, and the API searches issued on the way, in order. */
  datatype Retrieval = Retrieval(papers: seq<Paper>, queries: seq<ApiQuery>)

  /** The timestamp of the second API call: a week earlier, or still none. */
  function Widened(timestamp: Option<Time>): (w: Option<Time>)
    ensures w.Some? <==> timestamp.Some?
    ensures w.Some? ==> w.value == timestamp.value - Week
  {
    match timestamp
    case Some(t) => Some(t - Week)
    case None => None
  }

  /** What the RSS retriever gives for `area` in this environment. */
  function RssFor(area: string, config: Config, env: Env): RssResult {
    RssRetrieve(area, config, env.fetchFeed(FeedRequestFor(area, env.now)), env.parseTimestamp, env.unescape)
  }

  /** What the orchestrator returns for `area`: RSS first, then up to two API searches. */
  function Retrieve(area: string, config: Config, env: Env): Retrieval {
    var rss := RssFor(area, config, env);
    if |rss.papers| != 0 then Retrieval(rss.papers, [])
    else
      var q1 := QueryFor(area, rss.timestamp, env.now);
      var first := ApiPapers(area, rss.lastId, env.search(0, q1), env.unescape);
      if |first| != 0 then Retrieval(first, [q1])
      else
        var q2 := QueryFor(area, Widened(rss.timestamp), env.now);
        Retrieval(ApiPapers(area, rss.lastId, env.search(1, q2), env.unescape), [q1, q2])
  }

  method GetPapersFromArxivRssApi(area: string, config: Config, env: Env)
    returns (paperList: seq<Paper>, queries: seq<ApiQuery>)
    ensures Retrieval(paperList, queries) == Retrieve(area, config, env)
  {
    var rss := GetPapersFromArxivRss(area, config, env.now, env.fetchFeed, env.parseTimestamp, env.unescape);
    paperList := rss.papers;
    queries := [];
    if |paperList| == 0 {
      var apiPaperList, q1 := GetPapersFromArxivApi(area, rss.timestamp, rss.lastId, env.now, q => env.search(0, q), env.unescape);
      queries := [q1];
      if |apiPaperList| == 0 {
        var extendedTimestamp := if rss.timestamp.Some? then Some(rss.timestamp.value - Week) else None;
        var q2;
        apiPaperList, q2 := GetPapersFromArxivApi(area, extendedTimestamp, rss.lastId, env.now, q => env.search(1, q), env.unescape);
        queries := queries + [q2];
      }
      paperList := apiPaperList;
    }
  }

  /** The categories fetched, in order. */
  const Areas: seq<string> := ["cs.AI", "cs.LG"]

  /** The per-category results concatenated in the order of `areas`. */
  function AllPapers(config: Config, env: Env, areas: seq<string>): seq<Paper> {
    Collect(area => Retrieve(area, config, env).papers, areas)
  }

  method GetPapers(config: Config, env: Env) returns (allPapers: seq<Paper>)
    ensures allPapers == AllPapers(config, env, Areas)
  {
    var areaList := Areas;
    allPapers := [];
    for i := 0 to |areaList|
      invariant allPapers == AllPapers(config, env, areaList[..i])
    {
      CollectSnoc(area => Retrieve(area, config, env).papers, areaList, i);
      var papers, _ := GetPapersFromArxivRssApi(areaList[i], config, env);
      allPapers := allPapers + papers;
    }
    CollectAll(area => Retrieve(area, config, env).papers, areaList);
  }

  /** A non-empty RSS result is returned as it is, and no search is issued. */
  lemma RssFirst(area: string, config: Config, env: Env)
    requires |RssFor(area, config, env).papers| != 0
    ensures Retrieve(area, config, env) == Retrieval(RssFor(area, config, env).papers, [])
  {
  }

  /**
   * With no RSS papers the API is searched with the RSS timestamp and
   * `last_id`; exactly when that returns nothing it is searched once more,
   * with the widened timestamp and the same `last_id`, and that answer is
   * returned as it is.
   */
  lemma ApiFallback(area: string, config: Config, env: Env)
    requires |RssFor(area, config, env).papers| == 0
    ensures var rss, r := RssFor(area, config, env), Retrieve(area, config, env);
            var q1 := QueryFor(area, rss.timestamp, env.now);
            var first := ApiPapers(area, rss.lastId, env.search(0, q1), env.unescape);
            && 1 <= |r.queries| <= 2
            && r.queries[0] == q1
            && (|r.queries| == 2 <==> first == [])
            && (first != [] ==> r.papers == first)
            && (first == [] ==>
                  && r.queries[1] == QueryFor(area, Widened(rss.timestamp), env.now)
                  && r.papers == ApiPapers(area, rss.lastId, env.search(1, r.queries[1]), env.unescape))
  {
  }

  /**
   * The second search moves the whole window a week back when there is a
   * timestamp; without one it repeats the first search exactly.
   */
  lemma SecondSearchWindow(area: string, config: Config, env: Env)
    requires |Retrieve(area, config, env).queries| == 2
    ensures var qs := Retrieve(area, config, env).queries;
            var ts := RssFor(area, config, env).timestamp;
            && (ts.Some? ==> qs[1].end == qs[0].end - Week && qs[1].start == qs[0].start - Week)
            && (ts.None? ==> qs[1] == qs[0])
  {
  }

  /**
   * A feed answered with 304 (as `RssRetrieve` handles it): no timestamp and
   * no `last_id`, so the search window ends now, the retry repeats the first
   * query, and the answer of the last search is filtered by category alone.
   */
  lemma NotModifiedScenario(area: string, config: Config, env: Env)
    requires env.fetchFeed(FeedRequestFor(area, env.now)).status == NotModified
    ensures var r := Retrieve(area, config, env);
            var n := |r.queries| - 1;
            && RssFor(area, config, env).lastId == None
            && 1 <= |r.queries| <= 2
            && r.queries[0] == ApiQuery(area, env.now - Week, env.now, MaxResults)
            && (n == 1 ==> r.queries[1] == r.queries[0])
            && r.papers == ApiPapers(area, None, env.search(n, r.queries[n]), env.unescape)
  {
  }

  /**
   * An empty feed and three search results in the area: the three papers, in
   * order, from a single search.
   */
  lemma EmptyFeedThreeResults(area: string, config: Config, env: Env, r1: ApiResult, r2: ApiResult, r3: ApiResult)
    requires env.fetchFeed(FeedRequestFor(area, env.now)).entries == []
    requires env.search(0, QueryFor(area, None, env.now)) == [r1, r2, r3]
    requires area in r1.categories && area in r2.categories && area in r3.categories
    ensures Retrieve(area, config, env)
            == Retrieval([ApiPaper(r1, env.unescape), ApiPaper(r2, env.unescape), ApiPaper(r3, env.unescape)],
                         [QueryFor(area, None, env.now)])
  {
    var results := [r1, r2, r3];
    ApiAllKept(area, None, results, env.unescape);
  }

  /** The driver output is the per-category outputs, concatenated in order. */
  lemma AllPapersAppend(config: Config, env: Env, a: seq<string>, b: seq<string>)
    ensures AllPapers(config, env, a + b) == AllPapers(config, env, a) + AllPapers(config, env, b)
  {
    CollectAppend(area => Retrieve(area, config, env).papers, a, b);
  }

  /** `get_papers` returns the `cs.AI` papers followed by the `cs.LG` papers. */
  lemma DriverOrder(config: Config, env: Env)
    ensures AllPapers(config, env, Areas)
            == Retrieve(Areas[0], config, env).papers + Retrieve(Areas[1], config, env).papers
  {
    CollectPair(area => Retrieve(area, config, env).papers, Areas[0], Areas[1]);
    assert Areas == [Areas[0], Areas[1]];
  }

  /**
   * Categories are not deduplicated against each other: a paper returned for
   * both categories appears (at least) twice.
   */
  lemma CrossCategoryDuplicates(config: Config, env: Env, p: Paper)
    requires p in Retrieve(Areas[0], config, env).papers && p in Retrieve(Areas[1], config, env).papers
    ensures multiset(AllPapers(config, env, Areas))[p] >= 2
  {
    DriverOrder(config, env);
  }
}
