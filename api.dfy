/**
 * The API retriever (`get_papers_from_arxiv_api`). The search service is a
 * collaborator passed in as a function from the query to the records it
 * returns; unescaping HTML entities is another.
 */
module Api {
  import opened Wrappers
  import opened Text
  import opened ArxivId
  import opened Papers
  import opened Timestamps
  import opened FilterMap

  /** One search result: the fields the retriever reads. */
  datatype ApiResult = ApiResult(
    shortId: string,
    title: string,
    summary: string,
    authorNames: seq<string>,
    categories: seq<string>)

  /**
   * The search issued: category `area`, submission dates from `start` to
   * `end`, at most `maxResults` records.
   */
  datatype ApiQuery = ApiQuery(area: string, start: Time, end: Time, maxResults: nat)

  const MaxResults: nat := 200

  /** The window ends at the given timestamp, or now when there is none, and spans seven days. */
  function QueryFor(area: string, timestamp: Option<Time>, now: Time): (q: ApiQuery)
    ensures q.area == area && q.maxResults == MaxResults
    ensures q.end - q.start == Week
    ensures timestamp.Some? ==> q.end == timestamp.value
    ensures timestamp.None? ==> q.end == now
  {
    var end := timestamp.GetOr(now);
    ApiQuery(area, end - Week, end, MaxResults)
  }

  /** `last_id and is_earlier(last_id, new_id)`: an unset or empty `last_id` skips nothing. */
  predicate Skipped(lastId: Option<string>, id: string) {
    lastId.Some? && lastId.value != "" && IsEarlier(lastId.value, id)
  }

  /** A result becomes a paper when it is not skipped and `area` is one of its categories. */
  predicate ApiKeeps(area: string, lastId: Option<string>, r: ApiResult) {
    !Skipped(lastId, r.shortId) && area in r.categories
  }

  /** The paper a result becomes: summary newlines turned into spaces, then unescaped. */
  function ApiPaper(r: ApiResult, unescape: string -> string): Paper {
    Paper(r.authorNames, r.title, unescape(Replace(r.summary, '\n', " ")), r.shortId)
  }

  /** What one result contributes to the output. */
  function ApiStep(area: string, lastId: Option<string>, r: ApiResult, unescape: string -> string): seq<Paper> {
    if ApiKeeps(area, lastId, r) then [ApiPaper(r, unescape)] else []
  }

  /** The papers the loop appends, in result order. */
  function ApiPapers(area: string, lastId: Option<string>, results: seq<ApiResult>, unescape: string -> string): seq<Paper> {
    Collect(r => ApiStep(area, lastId, r, unescape), results)
  }

  method GetPapersFromArxivApi(area: string, timestamp: Option<Time>, lastId: Option<string>, now: Time,
                               search: ApiQuery -> seq<ApiResult>, unescape: string -> string)
    returns (apiPapers: seq<Paper>, query: ApiQuery)
    ensures query == QueryFor(area, timestamp, now)
    ensures apiPapers == ApiPapers(area, lastId, search(query), unescape)
  {
    var endDate := if timestamp.Some? then timestamp.value else now;
    var startDate := endDate - Week;
    query := ApiQuery(area, startDate, endDate, MaxResults);
    var results := search(query);
    apiPapers := [];
    for i := 0 to |results|
      invariant apiPapers == ApiPapers(area, lastId, results[..i], unescape)
    {
      var result := results[i];
      CollectSnoc(r => ApiStep(area, lastId, r, unescape), results, i);
      var newId := result.shortId;
      if lastId.Some? && lastId.value != "" && IsEarlier(lastId.value, newId) {
        continue;
      }
      var authors := result.authorNames;
      var summary := unescape(Replace(result.summary, '\n', " "));
      if area in result.categories {
        apiPapers := apiPapers + [Paper(authors, result.title, summary, newId)];
      }
    }
    assert results[..|results|] == results;
  }

  /** Results are handled one at a time, so output order follows result order. */
  lemma ApiPapersAppend(area: string, lastId: Option<string>, a: seq<ApiResult>, b: seq<ApiResult>,
                        unescape: string -> string)
    ensures ApiPapers(area, lastId, a + b, unescape)
            == ApiPapers(area, lastId, a, unescape) + ApiPapers(area, lastId, b, unescape)
  {
    CollectAppend(r => ApiStep(area, lastId, r, unescape), a, b);
  }

  /**
   * A paper is in the output iff some result passes both tests and becomes
   * it; its title, authors and id are the result's own.
   */
  lemma ApiPapersMembers(area: string, lastId: Option<string>, results: seq<ApiResult>, unescape: string -> string)
    ensures forall p :: p in ApiPapers(area, lastId, results, unescape) <==>
              exists r :: r in results && ApiKeeps(area, lastId, r) && ApiPaper(r, unescape) == p
    ensures forall p :: p in ApiPapers(area, lastId, results, unescape) ==>
              exists r :: && r in results && area in r.categories
                           && p.title == r.title && p.authors == r.authorNames && p.arxivId == r.shortId
  {
    CollectMembers(r => ApiStep(area, lastId, r, unescape), results);
  }

  /**
   * The skip rule as written: with a non-empty `last_id`, no kept paper has
   * an id later than it, while a result with an earlier id is kept whenever
   * its categories include the area.
   */
  lemma ApiSkipsLaterIds(area: string, last: string, results: seq<ApiResult>, unescape: string -> string)
    requires last != ""
    ensures forall p :: p in ApiPapers(area, Some(last), results, unescape) ==> !IsEarlier(last, p.arxivId)
    ensures forall r :: r in results && IsEarlier(r.shortId, last) && area in r.categories ==>
              ApiPaper(r, unescape) in ApiPapers(area, Some(last), results, unescape)
  {
    ApiPapersMembers(area, Some(last), results, unescape);
    forall r | r in results && IsEarlier(r.shortId, last) && area in r.categories
      ensures ApiPaper(r, unescape) in ApiPapers(area, Some(last), results, unescape)
    {
      IsEarlierStrictOrder(r.shortId, last, last);
    }
  }

  /** Without a usable `last_id` only the category test remains. */
  lemma ApiWithoutLastId(area: string, lastId: Option<string>, r: ApiResult)
    requires lastId == None || lastId == Some("")
    ensures ApiKeeps(area, lastId, r) <==> area in r.categories
  {
  }

  /** When every result passes, the output has one paper per result, in the same order. */
  lemma ApiAllKept(area: string, lastId: Option<string>, results: seq<ApiResult>, unescape: string -> string)
    requires forall r :: r in results ==> ApiKeeps(area, lastId, r)
    ensures var out := ApiPapers(area, lastId, results, unescape);
            |out| == |results| && forall i :: 0 <= i < |results| ==> out[i] == ApiPaper(results[i], unescape)
  {
    CollectOneEach(r => ApiStep(area, lastId, r, unescape), results);
  }

  /** A result none of whose categories is the area contributes nothing, whatever its id. */
  lemma ApiNoneInArea(area: string, lastId: Option<string>, results: seq<ApiResult>, unescape: string -> string)
    requires forall r :: r in results ==> area !in r.categories
    ensures ApiPapers(area, lastId, results, unescape) == []
  {
    CollectNone(r => ApiStep(area, lastId, r, unescape), results);
  }

  /**
   * Membership is exact: a result listed only under a longer category that
   * contains the area as a substring is not kept.
   */
  lemma ApiCategoryIsExact(area: string, lastId: Option<string>, r: ApiResult, other: string)
    requires r.categories == [other] && other != area
    ensures !ApiKeeps(area, lastId, r)
  {
  }

  /**
   * The text given to `unescape` is the summary with each newline turned
   * into one space and every other character kept in place.
   */
  lemma ApiAbstractFlattened(r: ApiResult, unescape: string -> string)
    ensures var t := Replace(r.summary, '\n', " ");
            && ApiPaper(r, unescape).abstractText == unescape(t)
            && |t| == |r.summary| && '\n' !in t
            && forall k :: 0 <= k < |t| ==> t[k] == if r.summary[k] == '\n' then ' ' else r.summary[k]
  {
    ReplacePointwise(r.summary, '\n', ' ');
  }
}
