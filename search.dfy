/** `search_keyword` and the search step of the result page: keep, in order,
    every row whose keyword is similar to the query. */
module Search {
  import opened Records
  import opened Seqs

  /** The rows a search returns. The row keyword is the first argument of the
      similarity test and the query the second. */
  ghost function Matching(fz: Fuzz, data: seq<Row>, query: string, threshold: int): (found: seq<Row>)
    ensures |found| <= |data|
    decreases |data|
  {
    if data == [] then []
    else
      var found := Matching(fz, data[..|data| - 1], query, threshold);
      var row := data[|data| - 1];
      if IsSimilar(fz, row.keyword, query, threshold) then found + [row] else found
  }

  /** A row is returned exactly when it is in the table and similar to the
      query. */
  lemma {:induction false} MatchingMembers(fz: Fuzz, data: seq<Row>, query: string, threshold: int)
    ensures forall r :: r in Matching(fz, data, query, threshold) <==> r in data && IsSimilar(fz, r.keyword, query, threshold)
    decreases |data|
  {
    if data != [] {
      var p := data[..|data| - 1];
      assert data == p + [data[|data| - 1]];
      MatchingMembers(fz, p, query, threshold);
    }
  }

  /** The result keeps the table's rows in their original order. */
  lemma {:induction false} MatchingSubsequence(fz: Fuzz, data: seq<Row>, query: string, threshold: int)
    ensures IsSubsequence(Matching(fz, data, query, threshold), data)
    decreases |data|
  {
    if data != [] {
      var p := data[..|data| - 1];
      var r := data[|data| - 1];
      assert data == p + [r];
      MatchingSubsequence(fz, p, query, threshold);
      SubsequenceSnoc(Matching(fz, p, query, threshold), p, r);
    }
  }

  /** The result is empty exactly when no row is similar to the query. */
  lemma MatchingEmpty(fz: Fuzz, data: seq<Row>, query: string, threshold: int)
    ensures Matching(fz, data, query, threshold) == []
            <==> forall i :: 0 <= i < |data| ==> !IsSimilar(fz, data[i].keyword, query, threshold)
  {
    MatchingMembers(fz, data, query, threshold);
    var m := Matching(fz, data, query, threshold);
    if m != [] {
      assert m[0] in m;
    }
  }

  /** Raising the threshold can only drop rows: the stricter result is a
      subsequence of the looser one. */
  lemma {:induction false} MatchingThresholdMonotone(fz: Fuzz, data: seq<Row>, query: string, t1: int, t2: int)
    requires t1 <= t2
    ensures IsSubsequence(Matching(fz, data, query, t2), Matching(fz, data, query, t1))
    decreases |data|
  {
    if data != [] {
      var p := data[..|data| - 1];
      var r := data[|data| - 1];
      MatchingThresholdMonotone(fz, p, query, t1, t2);
      var m1, m2 := Matching(fz, p, query, t1), Matching(fz, p, query, t2);
      if IsSimilar(fz, r.keyword, query, t2) {
        SimilarThresholdMonotone(fz, r.keyword, query, t1, t2);
        SubsequenceSnoc(m2, m1, r);
      } else if IsSimilar(fz, r.keyword, query, t1) {
        SubsequenceSnoc(m2, m1, r);
      }
    }
  }

  /** Queries that lower-case alike give the same rows. */
  lemma {:induction false} MatchingCaseInsensitive(fz: Fuzz, data: seq<Row>, q1: string, q2: string, threshold: int)
    requires fz.lower(q1) == fz.lower(q2)
    ensures Matching(fz, data, q1, threshold) == Matching(fz, data, q2, threshold)
    decreases |data|
  {
    if data != [] {
      MatchingCaseInsensitive(fz, data[..|data| - 1], q1, q2, threshold);
    }
  }

  /** At a threshold of 0 or less every row is returned. */
  lemma {:induction false} MatchingAll(fz: Fuzz, data: seq<Row>, query: string, threshold: int)
    requires threshold <= 0
    ensures Matching(fz, data, query, threshold) == data
    decreases |data|
  {
    if data != [] {
      MatchingAll(fz, data[..|data| - 1], query, threshold);
      assert data[..|data| - 1] + [data[|data| - 1]] == data;
    }
  }

  /** The loop of `search_keyword`. The search threshold defaults to 40; the
      debug print of the results is not modelled. */
  method SearchKeyword(fz: Fuzz, data: seq<Row>, keyword: string, threshold: int := SearchDefaultThreshold)
    returns (results: seq<Row>)
    ensures results == Matching(fz, data, keyword, threshold)
    ensures forall r :: r in results <==> r in data && IsSimilar(fz, r.keyword, keyword, threshold)
    ensures IsSubsequence(results, data)
  {
    results := [];
    for i := 0 to |data|
      invariant results == Matching(fz, data[..i], keyword, threshold)
    {
      var row := data[i];
      assert data[..i + 1][..i] == data[..i];
      if IsSimilar(fz, row.keyword, keyword, threshold) {
        results := results + [row];
      }
    }
    assert data[..|data|] == data;
    MatchingMembers(fz, data, keyword, threshold);
    MatchingSubsequence(fz, data, keyword, threshold);
  }

  /** What the result page shows. */
  datatype View = Shown(rows: seq<Row>) | NoResults

  /** The search step of the result page, for a query already stripped of
      surrounding blanks. An empty query shows the whole table. Otherwise the
      page searches at threshold 50 and reports "no results" when nothing
      matches. */
  ghost function ResultView(fz: Fuzz, data: seq<Row>, query: string): (v: View)
    ensures v.NoResults? <==>
      query != [] && forall i :: 0 <= i < |data| ==> !IsSimilar(fz, data[i].keyword, query, SearchViewThreshold)
    ensures query == [] ==> v == Shown(data)
    ensures query != [] && v.Shown? ==> v.rows == Matching(fz, data, query, SearchViewThreshold)
    ensures v.Shown? ==> IsSubsequence(v.rows, data)
    ensures v.Shown? && query != [] ==> forall r :: r in v.rows ==> IsSimilar(fz, r.keyword, query, SearchViewThreshold)
  {
    if query == [] then
      SubsequenceReflexive(data);
      Shown(data)
    else
      var found := Matching(fz, data, query, SearchViewThreshold);
      MatchingEmpty(fz, data, query, SearchViewThreshold);
      MatchingMembers(fz, data, query, SearchViewThreshold);
      MatchingSubsequence(fz, data, query, SearchViewThreshold);
      if found == [] then NoResults else Shown(found)
  }

  /** A scenario: with "seo tools" similar to "seo" at 50 and "widgets" not,
      searching for "seo" returns only the "seo tools" row. */
  lemma SearchExample(fz: Fuzz, seo: Row, widgets: Row)
    requires seo.keyword == "seo tools" && widgets.keyword == "widgets"
    requires IsSimilar(fz, "seo tools", "seo", SearchViewThreshold)
    requires !IsSimilar(fz, "widgets", "seo", SearchViewThreshold)
    ensures ResultView(fz, [seo, widgets], "seo") == Shown([seo])
  {
    var data := [seo, widgets];
    assert data[..1] == [seo] && [seo][..0] == [];
    assert Matching(fz, [seo], "seo", SearchViewThreshold) == [seo];
    assert Matching(fz, data, "seo", SearchViewThreshold) == [seo];
  }
}
