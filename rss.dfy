/**
 * The RSS retriever (`get_papers_from_arxiv_rss`). The fetched feed is a
 * plain record; fetching it, parsing its `updated` stamp and unescaping
 * HTML entities are collaborators passed in as functions.
 */
module Rss {
  import opened Wrappers
  import opened Text
  import opened Papers
  import opened Timestamps
  import opened FilterMap

  /** One feed entry: the fields the retriever reads (`tags` holds the tag terms). */
  datatype FeedEntry = FeedEntry(
    link: string,
    title: string,
    summary: string,
    author: string,
    tags: seq<string>,
    announceType: Option<string>)

  /** A parsed feed: HTTP status, entries in feed order, and the feed-level `updated` field. */
  datatype Feed = Feed(status: int, entries: seq<FeedEntry>, updated: Option<string>)

  /** The conditional fetch: the feed URL and the "modified since" cutoff. */
  datatype FeedRequest = FeedRequest(url: string, modifiedSince: Time)

  /**
   * The `ConfigParser` the program passes, reduced to the one value the
   * retriever reads: `FILTERING.force_primary`, if set.
   */
  datatype Config = Config(forcePrimary: Option<string>)

  /** Papers, the parsed feed timestamp, and the id of the first entry. */
  datatype RssResult = RssResult(papers: seq<Paper>, timestamp: Option<Time>, lastId: Option<string>)

  const NotModified: int := 304

  /** The request for a category: its feed, modified within the last day. */
  function FeedRequestFor(area: string, now: Time): FeedRequest {
    FeedRequest("https://export.arxiv.org/rss/" + area, now - Day)
  }

  /**
   * `force_primary` holds when the setting, stripped and lower-cased, is
   * `"true"`. An unset option falls back to `"false"`, which reads as false
   * (see ForcePrimaryParsing).
   */
  predicate ForcePrimary(config: Config) {
    match config.forcePrimary
    case None => false
    case Some(v) => Lower(Trim(v)) == "true"
  }

  /** The term of the first tag, or `""` when there are no tags. */
  function PrimaryCategory(entry: FeedEntry): string {
    if |entry.tags| > 0 then entry.tags[0] else ""
  }

  /** The three tests an entry must pass to become a paper. */
  predicate Keeps(area: string, forcePrimary: bool, entry: FeedEntry) {
    && entry.announceType.GetOr("") == "new"
    && !(area != PrimaryCategory(entry) && forcePrimary)
    && IsSubstring(area, PrimaryCategory(entry))
  }

  /** One author: tags stripped, entities unescaped, whitespace stripped. */
  function CleanName(piece: string, unescape: string -> string): string {
    Trim(unescape(StripTags(piece)))
  }

  /** Authors: newlines become `", "`, the string is split on `,`, and each piece is cleaned. */
  function CleanAuthors(author: string, unescape: string -> string): seq<string> {
    var pieces := Split(Replace(author, '\n', ", "), ',');
    seq(|pieces|, i requires 0 <= i < |pieces| => CleanName(pieces[i], unescape))
  }

  /** Summary: tags stripped, newlines turned into spaces, then unescaped. */
  function CleanSummary(summary: string, unescape: string -> string): string {
    unescape(Replace(StripTags(summary), '\n', " "))
  }

  /** The paper an entry becomes; its id is the last `/`-segment of the link. */
  function EntryPaper(entry: FeedEntry, unescape: string -> string): Paper {
    Paper(
      CleanAuthors(entry.author, unescape),
      CleanTitle(entry.title),
      CleanSummary(entry.summary, unescape),
      LastPiece(entry.link, '/'))
  }

  /** What one entry contributes: its paper if it passes the tests, nothing otherwise. */
  function EntryStep(area: string, forcePrimary: bool, entry: FeedEntry, unescape: string -> string): seq<Paper> {
    if Keeps(area, forcePrimary, entry) then [EntryPaper(entry, unescape)] else []
  }

  /** The papers the loop appends, in feed order. */
  function RssPapers(area: string, forcePrimary: bool, entries: seq<FeedEntry>, unescape: string -> string): seq<Paper> {
    Collect(e => EntryStep(area, forcePrimary, e, unescape), entries)
  }

  /** `if updated_field:` — an absent or empty field gives no timestamp, as does a failed parse. */
  function FeedTimestamp(updated: Option<string>, parseTimestamp: string -> Option<Time>): Option<Time> {
    match updated
    case Some(u) => if u != "" then parseTimestamp(u) else None
    case None => None
  }

  /** What `get_papers_from_arxiv_rss` returns for a fetched feed. */
  function RssRetrieve(area: string, config: Config, feed: Feed,
                       parseTimestamp: string -> Option<Time>, unescape: string -> string): RssResult
  {
    if feed.status == NotModified || |feed.entries| == 0 then RssResult([], None, None)
    else
      RssResult(
        RssPapers(area, ForcePrimary(config), feed.entries, unescape),
        FeedTimestamp(feed.updated, parseTimestamp),
        Some(LastPiece(feed.entries[0].link, '/')))
  }

  /** The exceptions `config.get("OUTPUT", {})` raises on a `ConfigParser`. */
  datatype Raised = NoSectionError | AttributeError

  /** What a call of `get_papers_from_arxiv_rss` ends in: a result, or an exception. */
  datatype RssOutcome = Returned(result: RssResult) | Raises(error: Raised)

  /**
   * `get_papers_from_arxiv_rss` as written, on the `ConfigParser` the program
   * passes. That object is never falsy, so a 304 answer always reaches the
   * debug lookup `config.get("OUTPUT", {})`. That is `ConfigParser.get` with
   * `{}` as the option: it raises `NoSectionError` without an `[OUTPUT]`
   * section and `AttributeError` (`{}` has no `lower`) with one. Every other
   * path returns what `RssRetrieve` gives.
   */
  function RssRetrieveAsWritten(area: string, config: Config, hasOutputSection: bool, feed: Feed,
                                parseTimestamp: string -> Option<Time>, unescape: string -> string): (o: RssOutcome)
    ensures o.Raises? <==> feed.status == NotModified
    ensures o.Raises? ==> (o.error == AttributeError <==> hasOutputSection)
    ensures o.Returned? ==> o.result == RssRetrieve(area, config, feed, parseTimestamp, unescape)
  {
    if feed.status == NotModified then
      Raises(if hasOutputSection then AttributeError else NoSectionError)
    else
      Returned(RssRetrieve(area, config, feed, parseTimestamp, unescape))
  }

  /**
   * The 304 branch as written never returns, whatever the configuration;
   * the fallback it evidently means, returning `([], None, None)`, is what
   * `RssRetrieve` does.
   */
  lemma NotModifiedRaises(area: string, config: Config, hasOutputSection: bool, feed: Feed,
                          parseTimestamp: string -> Option<Time>, unescape: string -> string)
    requires feed.status == NotModified
    ensures !RssRetrieveAsWritten(area, config, hasOutputSection, feed, parseTimestamp, unescape).Returned?
    ensures RssRetrieve(area, config, feed, parseTimestamp, unescape) == RssResult([], None, None)
  {
  }

  method GetPapersFromArxivRss(area: string, config: Config, now: Time, fetchFeed: FeedRequest -> Feed,
                               parseTimestamp: string -> Option<Time>, unescape: string -> string)
    returns (result: RssResult)
    ensures result == RssRetrieve(area, config, fetchFeed(FeedRequestFor(area, now)), parseTimestamp, unescape)
  {
    var feed := fetchFeed(FeedRequestFor(area, now));
    if feed.status == NotModified {
      return RssResult([], None, None);
    }
    var entries := feed.entries;
    if |entries| == 0 {
      return RssResult([], None, None);
    }
    var lastId := LastPiece(entries[0].link, '/');
    var timestamp := FeedTimestamp(feed.updated, parseTimestamp);
    var paperList: seq<Paper> := [];
    for i := 0 to |entries|
      invariant paperList == RssPapers(area, ForcePrimary(config), entries[..i], unescape)
    {
      var entry := entries[i];
      CollectSnoc(e => EntryStep(area, ForcePrimary(config), e, unescape), entries, i);
      if entry.announceType.GetOr("") != "new" {
        continue;
      }
      var paperArea := PrimaryCategory(entry);
      var forcePrimary := ForcePrimary(config);
      if area != paperArea && forcePrimary {
        continue;
      }
      var authors := CleanAuthors(entry.author, unescape);
      var summary := CleanSummary(entry.summary, unescape);
      var title := CleanTitle(entry.title);
      var id := LastPiece(entry.link, '/');
      if IsSubstring(area, paperArea) {
        paperList := paperList + [Paper(authors, title, summary, id)];
      }
    }
    assert entries[..|entries|] == entries;
    return RssResult(paperList, timestamp, Some(lastId));
  }

  /**
   * A 304 answer or an empty feed gives no papers and no continuation state;
   * otherwise `last_id` is the id of the first entry, kept or not.
   */
  lemma RssContinuation(area: string, config: Config, feed: Feed,
                        parseTimestamp: string -> Option<Time>, unescape: string -> string)
    ensures var r := RssRetrieve(area, config, feed, parseTimestamp, unescape);
            && (feed.status == NotModified || feed.entries == [] ==> r == RssResult([], None, None))
            && (feed.status != NotModified && feed.entries != [] ==>
                  && r.lastId == Some(LastPiece(feed.entries[0].link, '/'))
                  && r.timestamp == FeedTimestamp(feed.updated, parseTimestamp))
  {
  }

  /** The loop handles each entry on its own, so output order follows feed order. */
  lemma RssPapersAppend(area: string, forcePrimary: bool, a: seq<FeedEntry>, b: seq<FeedEntry>,
                        unescape: string -> string)
    ensures RssPapers(area, forcePrimary, a + b, unescape)
            == RssPapers(area, forcePrimary, a, unescape) + RssPapers(area, forcePrimary, b, unescape)
  {
    CollectAppend(e => EntryStep(area, forcePrimary, e, unescape), a, b);
  }

  /** A paper is in the output iff some entry passes the three tests and becomes it. */
  lemma RssPapersMembers(area: string, forcePrimary: bool, entries: seq<FeedEntry>, unescape: string -> string)
    ensures forall p :: p in RssPapers(area, forcePrimary, entries, unescape) <==>
              exists e :: e in entries && Keeps(area, forcePrimary, e) && EntryPaper(e, unescape) == p
  {
    CollectMembers(e => EntryStep(area, forcePrimary, e, unescape), entries);
  }

  /**
   * With `force_primary` an entry is kept iff it is new and its primary
   * category equals the area; without it iff it is new and the area is a
   * substring of its primary category.
   */
  lemma KeepsByFlag(area: string, entry: FeedEntry)
    ensures Keeps(area, true, entry) <==>
              entry.announceType == Some("new") && PrimaryCategory(entry) == area
    ensures Keeps(area, false, entry) <==>
              entry.announceType == Some("new") && IsSubstring(area, PrimaryCategory(entry))
  {
    SubstringOfItself(area);
  }

  /**
   * `force_primary` only ever removes entries whose primary category
   * strictly contains the area as a substring.
   */
  lemma ForcePrimaryOnlyNarrows(area: string, entry: FeedEntry)
    ensures Keeps(area, true, entry) ==> Keeps(area, false, entry)
    ensures Keeps(area, false, entry) && !Keeps(area, true, entry) ==>
              PrimaryCategory(entry) != area && IsSubstring(area, PrimaryCategory(entry))
  {
    KeepsByFlag(area, entry);
  }

  /**
   * An `cs.LG` request and a new entry whose primary tag is `cs.AI` is
   * dropped with `force_primary`; one whose primary tag contains `cs.LG`
   * is kept without it.
   */
  lemma CategoryScenario(entry: FeedEntry)
    requires entry.announceType == Some("new")
    ensures PrimaryCategory(entry) == "cs.AI" ==> !Keeps("cs.LG", true, entry)
    ensures IsSubstring("cs.LG", PrimaryCategory(entry)) ==> Keeps("cs.LG", false, entry)
  {
  }

  /** An unset option reads as its fallback `"false"` does; `" True\n"` reads as true. */
  lemma ForcePrimaryParsing(fallback: string, padded: string)
    requires fallback == "false" && padded == " True\n"
    ensures !ForcePrimary(Config(None))
    ensures ForcePrimary(Config(Some(fallback))) == ForcePrimary(Config(None))
    ensures ForcePrimary(Config(Some(padded)))
  {
    FallbackTrims(fallback);
    PaddedTrims(padded);
    UpperTrueLowers();
  }

  lemma FallbackTrims(fallback: string)
    requires fallback == "false"
    ensures Lower(Trim(fallback)) == "false"
  {
    assert TrimStart(fallback) == fallback;
    assert TrimEnd(fallback) == fallback;
    LowerUnchanged(fallback);
  }

  lemma PaddedTrims(padded: string)
    requires padded == " True\n"
    ensures Trim(padded) == "True"
  {
    var t := padded[1..];
    assert t == "True\n";
    assert TrimStart(t) == t;
    assert TrimStart(padded) == t;
    assert t[..4] == "True";
    assert TrimEnd(t) == "True";
  }

  lemma UpperTrueLowers()
    ensures Lower("True") == "true"
  {
  }

  /** The id of every RSS paper is the part of its link after the last `/`. */
  lemma RssIdFromLink(entry: FeedEntry, unescape: string -> string)
    ensures var id := EntryPaper(entry, unescape).arxivId;
            && '/' !in id
            && |id| <= |entry.link| && id == entry.link[|entry.link| - |id|..]
            && (|id| == |entry.link| || entry.link[|entry.link| - |id| - 1] == '/')
  {
    LastPieceIsSuffix(entry.link, '/');
  }

  /**
   * A paper's abstract is the unescaping of the summary with its tags
   * stripped and then each newline turned into one space, every other
   * character kept in place; a summary without `<` has no tags to strip.
   */
  lemma RssSummaryFlattened(summary: string, unescape: string -> string)
    ensures var plain := StripTags(summary);
            var t := Replace(plain, '\n', " ");
            && CleanSummary(summary, unescape) == unescape(t)
            && |t| == |plain| && '\n' !in t
            && (forall k :: 0 <= k < |t| ==> t[k] == if plain[k] == '\n' then ' ' else plain[k])
            && ('<' !in summary ==> plain == summary)
  {
    ReplacePointwise(StripTags(summary), '\n', ' ');
    if '<' !in summary {
      StripTagsPlain(summary);
    }
  }

  /**
   * When the author field, with its newlines replaced, is a `,`-join of
   * comma-free pieces, there is one author per piece, each cleaned on its own.
   */
  lemma AuthorsFromPieces(author: string, pieces: seq<string>, unescape: string -> string)
    requires |pieces| >= 1
    requires forall i :: 0 <= i < |pieces| ==> ',' !in pieces[i]
    requires Replace(author, '\n', ", ") == Join(pieces, ',')
    ensures var authors := CleanAuthors(author, unescape);
            |authors| == |pieces| && forall i :: 0 <= i < |pieces| ==> authors[i] == CleanName(pieces[i], unescape)
  {
    SplitJoin(pieces, ',');
  }

  /** In particular a `,`-join of names with no `,` or newline inside gives one author per name. */
  lemma AuthorsOfJoined(names: seq<string>, unescape: string -> string)
    requires |names| >= 1
    requires forall i :: 0 <= i < |names| ==> ',' !in names[i] && '\n' !in names[i]
    ensures var authors := CleanAuthors(Join(names, ','), unescape);
            |authors| == |names| && forall i :: 0 <= i < |names| ==> authors[i] == CleanName(names[i], unescape)
  {
    JoinFreeOf(names, ',', '\n');
    ReplaceAbsent(Join(names, ','), '\n', ", ");
    AuthorsFromPieces(Join(names, ','), names, unescape);
  }

  /** Joining pieces free of `c` with a separator other than `c` gives a string free of `c`. */
  lemma {:induction false} JoinFreeOf(parts: seq<string>, sep: char, c: char)
    requires |parts| >= 1 && sep != c
    requires forall i :: 0 <= i < |parts| ==> c !in parts[i]
    ensures c !in Join(parts, sep)
  {
    if |parts| > 1 {
      JoinFreeOf(parts[1..], sep, c);
    }
  }

  /** A one-letter name, possibly after the space that follows a comma, is cleaned to the letter. */
  lemma CleanOneLetterName(name: string, c: char, unescape: string -> string)
    requires 'A' <= c <= 'Z'
    requires name == [c] || name == [' ', c]
    requires forall t :: '&' !in t ==> unescape(t) == t
    ensures CleanName(name, unescape) == [c]
  {
    StripTagsPlain(name);
    assert unescape(name) == name;
    TrimUnchanged([c]);
    if name != [c] {
      assert name == [' '] + [c];
      TrimSkipsSpace(' ', [c]);
    }
  }

  /** The author field `"A, B\nC, D"` gives `["A", "B", "C", "D"]` when unescaping leaves plain text alone. */
  lemma AuthorsExample(author: string, unescape: string -> string)
    requires author == "A, B\nC, D"
    requires forall t :: '&' !in t ==> unescape(t) == t
    ensures var r := CleanAuthors(author, unescape);
            |r| == 4 && r[0] == "A" && r[1] == "B" && r[2] == "C" && r[3] == "D"
  {
    var names := ExampleNames(author);
    AuthorsFromPieces(author, names, unescape);
    CleanOneLetterName(names[0], 'A', unescape);
    CleanOneLetterName(names[1], 'B', unescape);
    CleanOneLetterName(names[2], 'C', unescape);
    CleanOneLetterName(names[3], 'D', unescape);
  }

  /** The pieces of the example: the newline reads as one more comma. */
  lemma ExampleNames(author: string) returns (names: seq<string>)
    requires author == "A, B\nC, D"
    ensures names == ["A", " B", " C", " D"]
    ensures Replace(author, '\n', ", ") == Join(names, ',')
  {
    names := ["A", " B", " C", " D"];
    ExampleReplace(author);
    ExampleJoin(names);
  }

  lemma ExampleReplace(author: string)
    requires author == "A, B\nC, D"
    ensures Replace(author, '\n', ", ") == "A, B, C, D"
  {
    var first, second := author[..4], author[5..];
    assert author == first + "\n" + second;
    ReplaceAppend(first + "\n", second, '\n', ", ");
    ReplaceAppend(first, "\n", '\n', ", ");
    ReplaceAbsent(first, '\n', ", ");
    ReplaceAbsent(second, '\n', ", ");
  }

  lemma ExampleJoin(names: seq<string>)
    requires names == ["A", " B", " C", " D"]
    ensures Join(names, ',') == "A, B, C, D"
  {
    assert Join(names[3..], ',') == " D";
    assert Join(names[2..], ',') == " C, D";
    assert Join(names[1..], ',') == " B, C, D";
  }
}
