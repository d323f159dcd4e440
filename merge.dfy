/**
 * `merge_paper_list(paper_list, api_paper_list)`: a copy of the API list,
 * then every RSS paper whose id is not among the API ids, in RSS order.
 */
module Merge {
  import opened Papers

  /** The RSS papers whose id is not in `seen`, in their order (the loop's appends). */
  function Unseen(rss: seq<Paper>, seen: set<string>): seq<Paper> {
    if rss == [] then []
    else
      var last := rss[|rss| - 1];
      Unseen(rss[..|rss| - 1], seen) + (if last.arxivId in seen then [] else [last])
  }

  /** The value `merge_paper_list(rss, api)` returns. */
  function Merged(rss: seq<Paper>, api: seq<Paper>): seq<Paper> {
    api + Unseen(rss, Ids(api))
  }

  method MergePaperList(rss: seq<Paper>, api: seq<Paper>) returns (merged: seq<Paper>)
    ensures merged == Merged(rss, api)
  {
    var apiSet := set p | p in api :: p.arxivId;
    merged := api;
    for i := 0 to |rss|
      invariant merged == api + Unseen(rss[..i], apiSet)
    {
      assert rss[..i + 1][..i] == rss[..i];
      if rss[i].arxivId !in apiSet {
        merged := merged + [rss[i]];
      }
    }
    assert rss[..|rss|] == rss;
  }

  /** A paper is kept by the filter iff it is in the RSS list and its id is unseen. */
  lemma {:induction false} UnseenMembers(rss: seq<Paper>, seen: set<string>)
    ensures forall p :: p in Unseen(rss, seen) <==> p in rss && p.arxivId !in seen
  {
    if rss != [] {
      var init := rss[..|rss| - 1];
      UnseenMembers(init, seen);
      assert rss == init + [rss[|rss| - 1]];
    }
  }

  /** The filter works element by element, so it commutes with concatenation (order is kept). */
  lemma {:induction false} UnseenAppend(a: seq<Paper>, b: seq<Paper>, seen: set<string>)
    ensures Unseen(a + b, seen) == Unseen(a, seen) + Unseen(b, seen)
    decreases |b|
  {
    if b == [] {
      assert a + b == a;
    } else {
      var bInit := b[..|b| - 1];
      UnseenAppend(a, bInit, seen);
      assert (a + b)[..|a + b| - 1] == a + bInit;
    }
  }

  /** A list none of whose ids are seen passes unchanged. */
  lemma {:induction false} UnseenAllNew(rss: seq<Paper>, seen: set<string>)
    requires forall p :: p in rss ==> p.arxivId !in seen
    ensures Unseen(rss, seen) == rss
  {
    if rss != [] {
      var init := rss[..|rss| - 1];
      UnseenAllNew(init, seen);
      assert rss == init + [rss[|rss| - 1]];
    }
  }

  /** A list all of whose ids are seen contributes nothing. */
  lemma {:induction false} UnseenAllSeen(rss: seq<Paper>, seen: set<string>)
    requires forall p :: p in rss ==> p.arxivId in seen
    ensures Unseen(rss, seen) == []
  {
    if rss != [] {
      var init := rss[..|rss| - 1];
      assert forall p :: p in init ==> p in rss;
      UnseenAllSeen(init, seen);
    }
  }

  /** Indices of the RSS papers that the merge appends. */
  function UnseenIndices(rss: seq<Paper>, seen: set<string>): set<nat> {
    set i: nat | i < |rss| && rss[i].arxivId !in seen
  }

  /** The filter keeps exactly one paper per RSS position whose id is unseen. */
  lemma {:induction false} UnseenLength(rss: seq<Paper>, seen: set<string>)
    ensures |Unseen(rss, seen)| == |UnseenIndices(rss, seen)|
  {
    if rss != [] {
      var n := |rss| - 1;
      var init := rss[..n];
      UnseenLength(init, seen);
      var s, t := UnseenIndices(rss, seen), UnseenIndices(init, seen);
      if rss[n].arxivId in seen {
        assert s == t;
      } else {
        assert s == t + {n};
        assert n !in t;
      }
    }
  }

  /** Distinct ids stay distinct after filtering, and none of them is seen. */
  lemma {:induction false} UnseenUnique(rss: seq<Paper>, seen: set<string>)
    requires UniqueIds(rss)
    ensures UniqueIds(Unseen(rss, seen))
    ensures forall p :: p in Unseen(rss, seen) ==> p.arxivId !in seen
  {
    UnseenMembers(rss, seen);
    if rss != [] {
      var n := |rss| - 1;
      var init := rss[..n];
      var last := rss[n];
      UnseenUnique(init, seen);
      UnseenMembers(init, seen);
      var u := Unseen(init, seen);
      forall p | p in u ensures !SameId(p, last) {
        var k :| 0 <= k < n && init[k] == p;
        assert rss[k] == p;
      }
    }
  }

  /** The API list is an unchanged prefix; then come the unseen RSS papers. */
  lemma MergeContents(rss: seq<Paper>, api: seq<Paper>)
    ensures var m := Merged(rss, api);
            && |m| >= |api| && m[..|api|] == api
            && (forall p :: p in m <==> p in api || (p in rss && p.arxivId !in Ids(api)))
  {
    UnseenMembers(rss, Ids(api));
    assert Merged(rss, api)[..|api|] == api;
  }

  /**
   * On an id present in both lists the API copy wins: every merged paper
   * carrying an API id is one of the API papers.
   */
  lemma MergeApiWinsTies(rss: seq<Paper>, api: seq<Paper>)
    ensures forall p :: p in Merged(rss, api) && p.arxivId in Ids(api) ==> p in api
  {
    UnseenMembers(rss, Ids(api));
  }

  /** No id is lost: the merged ids are those of both lists together. */
  lemma MergeIds(rss: seq<Paper>, api: seq<Paper>)
    ensures Ids(Merged(rss, api)) == Ids(api) + Ids(rss)
  {
    var u := Unseen(rss, Ids(api));
    IdsAppend(api, u);
    UnseenMembers(rss, Ids(api));
    forall x | x in Ids(rss) ensures x in Ids(api) + Ids(u) {
      var p :| p in rss && p.arxivId == x;
      if x !in Ids(api) {
        assert p in u;
      }
    }
  }

  /** Merging two duplicate-free lists gives a duplicate-free list. */
  lemma MergeUnique(rss: seq<Paper>, api: seq<Paper>)
    requires UniqueIds(rss) && UniqueIds(api)
    ensures UniqueIds(Merged(rss, api))
  {
    var u := Unseen(rss, Ids(api));
    UnseenUnique(rss, Ids(api));
    var m := Merged(rss, api);
    forall i, j | 0 <= i < j < |m| ensures !SameId(m[i], m[j]) {
      if j >= |api| && i < |api| {
        assert m[j] == u[j - |api|];
        assert m[i] in api;
      } else if i >= |api| {
        assert m[i] == u[i - |api|] && m[j] == u[j - |api|];
      }
    }
  }

  /** The output is `|api|` long plus one per RSS paper with an id the API did not return. */
  lemma MergeLength(rss: seq<Paper>, api: seq<Paper>)
    ensures |Merged(rss, api)| == |api| + |UnseenIndices(rss, Ids(api))|
  {
    UnseenLength(rss, Ids(api));
  }

  /** Merging a list with itself gives the list back. */
  lemma MergeSelf(papers: seq<Paper>)
    ensures Merged(papers, papers) == papers
  {
    var ids := Ids(papers);
    assert forall p :: p in papers ==> p.arxivId in ids;
    UnseenAllSeen(papers, ids);
  }

  /** An empty side contributes nothing. */
  lemma MergeWithEmpty(rss: seq<Paper>, api: seq<Paper>)
    ensures Merged([], api) == api
    ensures Merged(rss, []) == rss
  {
    assert Ids([]) == {};
    UnseenAllNew(rss, {});
  }

  /** With disjoint ids, `merge([r1, r2], [a1])` is `[a1, r1, r2]`. */
  lemma MergeOrderExample(r1: Paper, r2: Paper, a1: Paper)
    requires !SameId(r1, a1) && !SameId(r2, a1)
    ensures Merged([r1, r2], [a1]) == [a1, r1, r2]
  {
    assert Ids([a1]) == {a1.arxivId};
    UnseenAllNew([r1, r2], {a1.arxivId});
  }

  /** Duplicates inside the RSS list are not removed: only API ids are filtered. */
  lemma MergeKeepsRssDuplicates(p: Paper, api: seq<Paper>)
    requires p.arxivId !in Ids(api)
    ensures Merged([p, p], api) == api + [p, p]
  {
    UnseenAllNew([p, p], Ids(api));
  }
}
