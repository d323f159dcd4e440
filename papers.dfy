/**
 * The `Paper` record. Its hash is that of `arxiv_id` alone, so `arxiv_id`
 * is the identity the rest of the pipeline deduplicates on.
 */
module Papers {

  datatype Paper = Paper(authors: seq<string>, title: string, abstractText: string, arxivId: string)

  /** Two records for the same paper, whatever their other fields say. */
  predicate SameId(p: Paper, q: Paper) {
    p.arxivId == q.arxivId
  }

  /** The set of ids of a list of papers (`set([p.arxiv_id for p in papers])`). */
  function Ids(papers: seq<Paper>): set<string> {
    set p | p in papers :: p.arxivId
  }

  /** No two entries of the list share an id. */
  predicate UniqueIds(papers: seq<Paper>) {
    forall i, j :: 0 <= i < j < |papers| ==> !SameId(papers[i], papers[j])
  }

  lemma IdsAppend(a: seq<Paper>, b: seq<Paper>)
    ensures Ids(a + b) == Ids(a) + Ids(b)
  {
    forall x | x in Ids(a + b) ensures x in Ids(a) + Ids(b) {
      var p :| p in a + b && p.arxivId == x;
    }
    forall x | x in Ids(a) + Ids(b) ensures x in Ids(a + b) {
      if x in Ids(a) {
        var p :| p in a && p.arxivId == x;
        assert p in a + b;
      } else {
        var p :| p in b && p.arxivId == x;
        assert p in a + b;
      }
    }
  }
}
