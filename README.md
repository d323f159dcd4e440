# arXiv scraper: retrieval and merge logic in Dafny

This project models the paper-retrieval core of `arxiv_scraper.py`, the
fetcher of a daily arXiv paper assistant. For each of the categories
`cs.AI` and `cs.LG` it does the following:

- It reads the category's RSS feed, keeps the entries announced as new in
  the category and cleans their fields into `Paper` records (authors,
  title, abstract, arXiv id).
- When the feed gives nothing, it falls back to the arXiv search API: first
  over the seven days that end at the feed's timestamp, then once more over
  the week before that.
- It concatenates the per-category lists.

The model also covers the id recency test `is_earlier` and the RSS/API
merge `merge_paper_list`.

The outside world is made of parameters:

- the clock (`now`, seconds);
- the feed fetcher (a function from the request to a `Feed` record: HTTP
  status, entries, `updated` field);
- the feed timestamp parser (partial: `None` on failure);
- the search service (a function from the call number and the query to the
  result records: the first search for a category is call 0, the retry
  call 1, so a retry that repeats the first query is still a request of its
  own);
- HTML unescaping.

Loops that build lists by appending are methods with loop invariants. Each
is proved equal to a specification function, and the properties are proved
about those functions:

- `MergePaperList` against `Merged`;
- `GetPapersFromArxivRss` against `RssRetrieve`;
- `GetPapersFromArxivApi` against `ApiPapers`;
- `GetPapersFromArxivRssApi` against `Retrieve`;
- `GetPapers` against `AllPapers`.

Both retriever loops and the driver loop have the same shape: each item
contributes zero or more outputs, appended in order. That shape is
`FilterMap.Collect`, and its order and membership laws are proved once.

Modules, in dependency order:

| module | file | contents |
|---|---|---|
| `Wrappers` | wrappers.dfy | `Option` |
| `Timestamps` | timestamps.dfy | `Time` (seconds), `Day`, `Week` |
| `Text` | text.dfy | the Python string operations the retrievers use: `strip`, `lower`, `replace`, `split`, `in` on strings; the tag-stripping and title-annotation regular expressions |
| `ArxivId` | arxiv_id.dfy | `is_earlier` |
| `Papers` | papers.dfy | `Paper` and identity by `arxiv_id` |
| `FilterMap` | filter_map.dfy | the append-per-item loop shape |
| `Merge` | merge.dfy | `merge_paper_list` |
| `Rss` | rss.dfy | `get_papers_from_arxiv_rss` |
| `Api` | api.dfy | `get_papers_from_arxiv_api` |
| `Pipeline` | pipeline.dfy | `get_papers_from_arxiv_rss_api`, `get_papers` |

## Behaviour as written

Where the code and its comments disagree, the model follows the code.

- **The skip rule keeps older ids.** The API loop skips a result when
  `last_id` is non-empty and `is_earlier(last_id, new_id)` holds
  (arxiv_scraper.py:69). That drops ids *later* than `last_id` and keeps
  earlier ones, which is the opposite of the comment above it.
  `Api.ApiSkipsLaterIds` states both halves.
- **Category tests differ between the two sources.** RSS keeps an entry
  when the area is a *substring* of its first tag. The API requires the
  area to be an *element* of the category list. See `Rss.KeepsByFlag` and
  `Api.ApiCategoryIsExact`.
- **No timestamp means no widening.** Without a feed timestamp the second
  API search repeats the first one exactly: both windows end now. See
  `Pipeline.SecondSearchWindow`. The retry is still sent, and its answer is
  returned (`Pipeline.ApiFallback`).
- **The merge does not deduplicate the RSS list.** It only drops RSS papers
  whose id the API returned (`Merge.MergeKeepsRssDuplicates`). The
  orchestrator never calls it. It returns either the RSS list or an API
  list, never both.
- **No deduplication across categories.** A paper returned for both
  categories appears twice in the output (`Pipeline.CrossCategoryDuplicates`).

## Model

| member | source | states |
|---|---|---|
| ArxivId.IsEarlierStrictOrder | arxiv_scraper.py:36-46 | No id is earlier than itself. The relation is asymmetric and transitive. |
| ArxivId.IsEarlierFailsClosed | arxiv_scraper.py:41-46 | An id whose key does not read as an integer is neither earlier nor later than any id. |
| ArxivId.IdKeyIgnoresVersion | arxiv_scraper.py:42-43 | The comparison key of `p + "v" + version` is that of `p` when `p` has no `v`. |
| ArxivId.IsEarlierIgnoresVersion | arxiv_scraper.py:42-44 | Recency does not depend on the version suffix, on either side of the comparison. |
| ArxivId.DecimalValueBound | arxiv_scraper.py:42-43 | A key of `n` digits reads as a number below `10^n`. |
| ArxivId.DecimalOrderIsLex | arxiv_scraper.py:42-44 | For digit strings of equal length, integer order is character-by-character order. |
| ArxivId.IsEarlierSameLength | arxiv_scraper.py:36-46 | Ids whose keys have the same number of digits are ordered as their keys are ordered as text. |
| Merge.MergePaperList | arxiv_scraper.py:169-178 | The result is `Merged(rss, api)`: the API list, then the RSS papers whose id the API list lacks, in RSS order. |
| Merge.UnseenMembers | arxiv_scraper.py:175-177 | A paper is appended iff it is in the RSS list and its id is not an API id. |
| Merge.UnseenAppend | arxiv_scraper.py:175-177 | Filtering commutes with concatenation, so RSS order is kept. |
| Merge.UnseenLength | arxiv_scraper.py:175-177 | One paper is appended per RSS position whose id is not an API id. |
| Merge.UnseenUnique | arxiv_scraper.py:175-177 | Filtering a list with distinct ids gives distinct ids, none of them an API id. |
| Merge.MergeContents | arxiv_scraper.py:173-177 | The API list is an unchanged prefix. A paper is in the result iff it is an API paper, or an RSS paper with an id the API list lacks. |
| Merge.MergeApiWinsTies | arxiv_scraper.py:173-177 | Every merged paper that carries an API id is one of the API papers. |
| Merge.MergeIds | arxiv_scraper.py:173-178 | The ids of the result are the union of the ids of both lists. |
| Merge.MergeUnique | arxiv_scraper.py:173-178 | Two lists without duplicate ids merge into a list without duplicate ids. |
| Merge.MergeLength | arxiv_scraper.py:173-178 | The length is `|api|` plus the number of RSS positions with an id not in the API list. |
| Merge.MergeSelf | arxiv_scraper.py:173-178 | Merging a list with itself gives the list. |
| Merge.MergeWithEmpty | arxiv_scraper.py:173-178 | `merge([], A) == A` and `merge(R, []) == R`. |
| Merge.MergeOrderExample | arxiv_scraper.py:173-178 | With disjoint ids, `merge([r1, r2], [a1]) == [a1, r1, r2]`. |
| Merge.MergeKeepsRssDuplicates | arxiv_scraper.py:175-177 | A paper twice in the RSS list with an id the API list lacks appears twice in the result. |
| Text.Trim | arxiv_scraper.py:149 | `strip()` leaves no whitespace at either end of its result. |
| Text.TrimIsSlice | arxiv_scraper.py:149 | The stripped string is one slice of the input, and everything cut on either side is whitespace. |
| Text.TrimUnchanged | arxiv_scraper.py:138 | A string with no whitespace at either end is its own `strip()`. |
| Text.Split | arxiv_scraper.py:150 | `split(sep)` gives at least one piece. No piece contains `sep`, and joining the pieces with `sep` gives the input back. |
| Text.SplitJoin | arxiv_scraper.py:150 | Splitting a `sep`-join of `sep`-free pieces gives the pieces back. |
| Text.SplitFirstPiece | arxiv_scraper.py:42 | `split('v')[0]` is everything before the first `v`, or the whole string when it has none. |
| Text.LastPieceIsSuffix | arxiv_scraper.py:158 | `split("/")[-1]` is a `/`-free suffix of the input, and is either all of it or preceded by `/`. |
| Text.ReplaceRemoves | arxiv_scraper.py:154 | After replacing `c` by a text without `c`, no `c` is left. |
| Text.StripTagsPlain | arxiv_scraper.py:153 | Tag stripping leaves a text without `<` unchanged. |
| Text.StripTagsRemovesTag | arxiv_scraper.py:153 | A tag `<t>` (body non-empty, free of `<` and `>`) is removed, and stripping resumes after it. |
| Text.DigitRunIsMaximal | arxiv_scraper.py:156 | `[0-9]+` consumes every leading digit and stops at the first non-digit. |
| Text.FirstAnnotation | arxiv_scraper.py:156 | The title pattern matches at the leftmost position from which it matches, and nowhere before. |
| Text.ReplacePointwise | arxiv_scraper.py:73 | Replacing a character by one character keeps the length, turns each occurrence into the replacement and keeps every other character in place. |
| Text.CleanTitleCutsAnnotation | arxiv_scraper.py:156 | A title `p + "(arXiv:<d>.<d>v<d> [...])"` with no `(arXiv:` in `p` is cleaned to `strip(p)`, whatever other parentheses `p` holds. |
| Text.CleanTitlePlain | arxiv_scraper.py:156 | A title without `(` is only stripped. |
| Rss.GetPapersFromArxivRss | arxiv_scraper.py:91-166 | Fetches the feed modified within the last day and returns `RssRetrieve` of it. |
| Rss.RssRetrieveAsWritten | arxiv_scraper.py:100-103 | As written, with the `ConfigParser` the program passes: a 304 answer raises (`NoSectionError` without an `[OUTPUT]` section, `AttributeError` with one), and every other feed gives what `RssRetrieve` gives. |
| Rss.NotModifiedRaises | arxiv_scraper.py:100-103 | For every 304 answer the as-written retriever does not return, while the intended one returns `([], None, None)`. |
| Rss.RssContinuation | arxiv_scraper.py:100-124 | A 304 status or an empty feed gives `([], None, None)`. Otherwise `last_id` is the id of the first entry, kept or not, and the timestamp is the parsed `updated` field. |
| Rss.RssPapersAppend | arxiv_scraper.py:126-162 | The paper list follows feed order: the papers of `a + b` are those of `a`, then those of `b`. |
| Rss.RssPapersMembers | arxiv_scraper.py:126-162 | A paper is returned iff some entry passes the three tests and cleans into it. |
| Rss.KeepsByFlag | arxiv_scraper.py:127-162 | With `force_primary`, an entry is kept iff it is new and its primary category equals the area. Without it, iff it is new and the area is a substring of its primary category. |
| Rss.ForcePrimaryOnlyNarrows | arxiv_scraper.py:144-146 | `force_primary` only removes entries whose primary category strictly contains the area. |
| Rss.CategoryScenario | arxiv_scraper.py:144-160 | For `cs.LG`, a new `cs.AI` entry is dropped under `force_primary`. A new entry whose primary tag contains `cs.LG` is kept without it. |
| Rss.ForcePrimaryParsing | arxiv_scraper.py:138-141 | An unset option reads as its fallback `"false"`, which is false. `" True\n"` reads as true. |
| Rss.RssIdFromLink | arxiv_scraper.py:158 | A paper's id is the `/`-free part of its link after the last `/`. |
| Rss.RssSummaryFlattened | arxiv_scraper.py:152-154 | The abstract is the unescaping of the tag-stripped summary with each newline turned into one space and every other character kept in place. A summary without `<` loses no tags. |
| Rss.AuthorsFromPieces | arxiv_scraper.py:148-151 | When the author field, newlines replaced, is a `,`-join of comma-free pieces, there is one author per piece, each cleaned on its own. |
| Rss.AuthorsOfJoined | arxiv_scraper.py:148-151 | A `,`-join of names free of `,` and newline gives one author per name, in order. |
| Rss.CleanOneLetterName | arxiv_scraper.py:149 | A one-letter name, with or without the space after a comma, cleans to the letter. |
| Rss.AuthorsExample | arxiv_scraper.py:148-151 | `"A, B\nC, D"` gives the authors `A`, `B`, `C`, `D`. |
| Api.QueryFor | arxiv_scraper.py:54-61 | The search window ends at the timestamp, or now without one, and starts seven days earlier, with at most 200 results. |
| Api.GetPapersFromArxivApi | arxiv_scraper.py:54-83 | Issues `QueryFor(area, timestamp, now)` and returns `ApiPapers` of its results. |
| Api.ApiPapersAppend | arxiv_scraper.py:66-83 | Output order follows result order. |
| Api.ApiPapersMembers | arxiv_scraper.py:66-83 | A paper is returned iff some result passes the skip and category tests and becomes it. Its title, authors and id are the result's own. |
| Api.ApiSkipsLaterIds | arxiv_scraper.py:69-70 | With a non-empty `last_id`, no returned id is later than it. A result with an earlier id is returned whenever its categories include the area. |
| Api.ApiWithoutLastId | arxiv_scraper.py:69 | With no `last_id`, or an empty one, only the category test remains. |
| Api.ApiAllKept | arxiv_scraper.py:66-83 | When every result passes, the output has one paper per result, position by position. |
| Api.ApiNoneInArea | arxiv_scraper.py:75 | Results none of which lists the area give no papers. |
| Api.ApiCategoryIsExact | arxiv_scraper.py:75 | A result listed only under another category, even one containing the area, is dropped. |
| Api.ApiAbstractFlattened | arxiv_scraper.py:72-73 | The abstract is the unescaping of the summary with each newline turned into one space and every other character kept in place. |
| Pipeline.Widened | arxiv_scraper.py:193-196 | The second timestamp is a week earlier, or still none. |
| Pipeline.GetPapersFromArxivRssApi | arxiv_scraper.py:181-200 | Returns the papers and the searches of `Retrieve`, calling the two retrievers as the source does. |
| Pipeline.RssFirst | arxiv_scraper.py:185-200 | A non-empty RSS list is returned, and no search is issued. |
| Pipeline.ApiFallback | arxiv_scraper.py:187-198 | With no RSS papers there are one or two searches. The first uses the RSS timestamp and `last_id`. The second happens iff the first returns nothing, and uses the widened timestamp and the same `last_id`. The answer to that second request is returned. |
| Pipeline.SecondSearchWindow | arxiv_scraper.py:193-197 | With a timestamp, the second window is the first moved a week back. Without one, the second search equals the first. |
| Pipeline.NotModifiedScenario | arxiv_scraper.py:185-197 | After a 304 answer, handled as intended, `last_id` is unset, the search window ends now, a retry repeats the first query, and the papers are the last answer filtered by category alone. |
| Pipeline.EmptyFeedThreeResults | arxiv_scraper.py:185-198 | An empty feed and three results in the area give those three papers, in order, from one search. |
| Pipeline.GetPapers | arxiv_scraper.py:203-212 | The result is `AllPapers` over `["cs.AI", "cs.LG"]`. |
| Pipeline.AllPapersAppend | arxiv_scraper.py:208-211 | The driver output over `a + b` is the output over `a`, then the output over `b`. |
| Pipeline.DriverOrder | arxiv_scraper.py:207-212 | The output is the `cs.AI` papers followed by the `cs.LG` papers. |
| Pipeline.CrossCategoryDuplicates | arxiv_scraper.py:208-212 | A paper returned for both categories occurs at least twice in the output. |

## Left out

- Network access is left out. `feedparser.parse` and `arxiv.Search(...).results()`
  are the `fetchFeed` and `search` parameters. The request carries the
  cutoff time, not the formatted `If-Modified-Since` header. The query carries
  the window bounds, not the `cat:... AND submittedDate:[...]` string.
- Api.QueryFor: the sort order (newest submissions first) is not modelled. The
  `max_results` cap travels in the query and is left to the search
  service; the model does not truncate.
- Calendar formatting and parsing are left out: `strftime` in the
  request and query, and `strptime` of the feed's `updated` field.
  Timestamps are whole seconds. The parse is the `parseTimestamp`
  parameter, with `None` for a failed parse.
- The clock is read once per run (`Env.now`). The source reads it again
  in the RSS retriever and in each API call.
- `html.unescape` is an uninterpreted function.
- ArxivId.ParseInt: Python's `int()` also accepts signs, underscores, surrounding
  whitespace and non-ASCII digits. The model accepts non-empty runs of
  ASCII digits only.
- Text.Lower: only ASCII letters are lower-cased. This matters only for
  `force_primary` values with non-ASCII letters.
- Text.FirstAnnotation: only the one title pattern is modelled, not a
  general regular-expression engine. The same holds for the tag pattern
  (`Text.StripTags`).
- Logging is left out.
- Rss.RssRetrieve: models the 304 branch as evidently intended: it returns
  `([], None, None)`. As written, that branch raises on the `ConfigParser` the
  program passes (see "## Findings"). `Rss.RssRetrieveAsWritten` keeps the
  as-written behaviour. The orchestrator and the driver are built on the
  intended version, so they do not model the run ending on a 304 answer.
- The configuration is the `ConfigParser` built at arxiv_scraper.py:232-236,
  as its three-argument `get` at arxiv_scraper.py:138 requires. A plain
  `dict`, which the type hints name, would raise there on every new entry.
  That is not modelled.
- A missing `config` is left out. The source crashes on it at
  arxiv_scraper.py:138; the model always has a configuration.
- Feed entries lacking `link`, `author`, `title` or `summary` are left out.
  The source raises on them.
- Pipeline.Retrieve: the clock is read once per run, so a retry without a
  timestamp sends the very query of the first search. Only the answer may
  differ, through the call number of `search`.
- JSON encoding, `save_papers`, and the `__main__` block are left out.
- The dataclass `__eq__`, which compares every field, is not needed: the
  merge works on the id set directly. Identity is the `arxivId` field.

## Findings

| source | as written | input that shows it | evidently intended | confidence | as-written member | corrected member |
|---|---|---|---|---|---|---|
| arxiv_scraper.py:100-103 | On a 304 answer, `config.get("OUTPUT", {})` calls `ConfigParser.get` with `{}` as the option name. It raises `NoSectionError` without an `[OUTPUT]` section and `AttributeError` with one. The exception is not caught, so the run ends. | Any feed answered with status 304 (nothing new since the cutoff), with the `ConfigParser` read from `configs/config.ini` | Log the debug message at most, and return `([], None, None)` so the orchestrator falls back to the API | not executed; high, from the `ConfigParser.get` signature | Rss.NotModifiedRaises | Rss.RssContinuation |
