/** `filter_duplicate_keywords`: one pass over the rows in input order. A row is
    kept unless its exact keyword was met before, or it is mergeable with a
    row kept earlier (similar keyword at threshold 90 and equal values). */
module Dedup {
  import opened Records
  import opened Seqs

  /** The new row `r` may be merged into the kept row `u`. The new keyword is
      the first argument of the similarity test and the kept keyword the
      second. */
  predicate Mergeable(fz: Fuzz, r: Row, u: Row): (b: bool)
    ensures b ==> r.rest == u.rest
    ensures fz.ratio(fz.lower(r.keyword), fz.lower(u.keyword)) < DedupThreshold ==> !b
  {
    IsSimilar(fz, r.keyword, u.keyword, DedupThreshold) && AreValuesEqual(r, u)
  }

  /** Some kept row absorbs `r`. */
  ghost predicate Matches(fz: Fuzz, unique: seq<Row>, r: Row) {
    exists j :: 0 <= j < |unique| && Mergeable(fz, r, unique[j])
  }

  /** The loop state: the kept rows, and the keywords already resolved. */
  datatype State = State(unique: seq<Row>, seen: set<string>)

  /** One iteration of the outer loop. */
  ghost function Step(fz: Fuzz, s: State, r: Row): (s': State)
    ensures s'.seen == s.seen + {r.keyword}
    ensures s'.unique == s.unique || s'.unique == s.unique + [r]
    ensures s'.unique == s.unique + [r] <==> r.keyword !in s.seen && !Matches(fz, s.unique, r)
  {
    if r.keyword in s.seen then s
    else if Matches(fz, s.unique, r) then State(s.unique, s.seen + {r.keyword})
    else State(s.unique + [r], s.seen + {r.keyword})
  }

  /** The state after the loop has processed all of `data`. */
  ghost function Run(fz: Fuzz, data: seq<Row>): (s: State)
    ensures |s.unique| <= |data|
    decreases |data|
  {
    if data == [] then State([], {})
    else Step(fz, Run(fz, data[..|data| - 1]), data[|data| - 1])
  }

  /** The rows deduplication returns. */
  ghost function Dedup(fz: Fuzz, data: seq<Row>): (out: seq<Row>)
    ensures |out| <= |data|
    ensures data == [] ==> out == []
  {
    Run(fz, data).unique
  }

  /** The set of keywords of some rows. */
  ghost function Keywords(rows: seq<Row>): set<string> {
    set r | r in rows :: r.keyword
  }

  /** No two rows share a keyword. */
  ghost predicate KeywordsDistinct(rows: seq<Row>) {
    forall i, j :: 0 <= i < j < |rows| ==> rows[i].keyword != rows[j].keyword
  }

  /** No row could be merged into an earlier one. */
  ghost predicate NoMergeablePair(fz: Fuzz, rows: seq<Row>) {
    forall i, j :: 0 <= i < j < |rows| ==> !Mergeable(fz, rows[j], rows[i])
  }

  lemma KeywordsSnoc(rows: seq<Row>, r: Row)
    ensures Keywords(rows + [r]) == Keywords(rows) + {r.keyword}
  {
    assert r in rows + [r];
    forall x | x in rows ensures x in rows + [r] {}
    forall x | x in rows + [r] ensures x == r || x in rows {}
  }

  /** Every keyword processed so far is in `seen`, and nothing else is: every
      branch of the loop body adds the current keyword. So "already seen" means
      "occurred in an earlier input row". */
  lemma {:induction false} RunSeenIsKeywords(fz: Fuzz, data: seq<Row>)
    ensures Run(fz, data).seen == Keywords(data)
    decreases |data|
  {
    if data != [] {
      var p := data[..|data| - 1];
      assert data == p + [data[|data| - 1]];
      RunSeenIsKeywords(fz, p);
      KeywordsSnoc(p, data[|data| - 1]);
    }
  }

  /** The output keeps input rows in their original order. */
  lemma {:induction false} DedupSubsequence(fz: Fuzz, data: seq<Row>)
    ensures IsSubsequence(Dedup(fz, data), data)
    decreases |data|
  {
    if data != [] {
      var p := data[..|data| - 1];
      var r := data[|data| - 1];
      assert data == p + [r];
      DedupSubsequence(fz, p);
      SubsequenceSnoc(Dedup(fz, p), p, r);
    }
  }

  /** The output has pairwise distinct keywords, and no kept row is mergeable
      into a row kept before it. */
  lemma {:induction false} DedupWellFormed(fz: Fuzz, data: seq<Row>)
    ensures KeywordsDistinct(Dedup(fz, data))
    ensures NoMergeablePair(fz, Dedup(fz, data))
    ensures Keywords(Dedup(fz, data)) <= Run(fz, data).seen
    decreases |data|
  {
    if data != [] {
      var p := data[..|data| - 1];
      var r := data[|data| - 1];
      DedupWellFormed(fz, p);
      var s := Run(fz, p);
      if r.keyword !in s.seen && !Matches(fz, s.unique, r) {
        var u := s.unique + [r];
        assert u == Dedup(fz, data);
        forall i, j | 0 <= i < j < |u| ensures u[i].keyword != u[j].keyword && !Mergeable(fz, u[j], u[i]) {
          if j == |u| - 1 {
            assert u[i] in s.unique;
          }
        }
        KeywordsSnoc(s.unique, r);
      }
    }
  }

  /** A sequence that is already free of duplicates is returned unchanged. */
  lemma {:induction false} DedupKeepsDuplicateFree(fz: Fuzz, xs: seq<Row>)
    requires KeywordsDistinct(xs) && NoMergeablePair(fz, xs)
    ensures Dedup(fz, xs) == xs
    decreases |xs|
  {
    if xs != [] {
      var p := xs[..|xs| - 1];
      var r := xs[|xs| - 1];
      assert KeywordsDistinct(p) by {
        forall i, j | 0 <= i < j < |p| ensures p[i].keyword != p[j].keyword {
          assert p[i] == xs[i] && p[j] == xs[j];
        }
      }
      assert NoMergeablePair(fz, p) by {
        forall i, j | 0 <= i < j < |p| ensures !Mergeable(fz, p[j], p[i]) {
          assert p[i] == xs[i] && p[j] == xs[j];
        }
      }
      DedupKeepsDuplicateFree(fz, p);
      RunSeenIsKeywords(fz, p);
      assert r.keyword !in Keywords(p) by {
        forall x | x in p ensures x.keyword != r.keyword {
          var i :| 0 <= i < |p| && p[i] == x;
          assert xs[i] == x;
        }
      }
      assert !Matches(fz, p, r) by {
        forall j | 0 <= j < |p| ensures !Mergeable(fz, r, p[j]) {
          assert xs[j] == p[j];
        }
      }
      var s := Run(fz, p);
      assert s.unique == p && r.keyword !in s.seen && !Matches(fz, s.unique, r);
      assert Step(fz, s, r).unique == p + [r];
      assert p + [r] == xs;
    }
  }

  /** Running deduplication twice gives the same rows as running it once. */
  lemma DedupIdempotent(fz: Fuzz, data: seq<Row>)
    ensures Dedup(fz, Dedup(fz, data)) == Dedup(fz, data)
  {
    DedupWellFormed(fz, data);
    DedupKeepsDuplicateFree(fz, Dedup(fz, data));
  }

  /** The output grows only by appending: the rows kept from a prefix of the
      input are a prefix of the rows kept from the whole input. */
  lemma {:induction false} DedupPrefix(fz: Fuzz, data: seq<Row>, i: nat)
    requires i <= |data|
    ensures Dedup(fz, data[..i]) <= Dedup(fz, data)
    decreases |data| - i
  {
    if i < |data| {
      DedupPrefix(fz, data, i + 1);
      assert data[..i + 1][..i] == data[..i];
    } else {
      assert data[..i] == data;
    }
  }

  /** Each input row is handled in exactly one of three ways: it is appended to
      the output; or its exact keyword occurred in an earlier input row (even
      when its values differ); or its keyword is new and it is mergeable into a
      row kept before it. */
  lemma DedupAccountsFor(fz: Fuzz, data: seq<Row>, i: nat)
    requires i < |data|
    ensures
      var before := Dedup(fz, data[..i]);
      var after := Dedup(fz, data[..i + 1]);
      var seenBefore := data[i].keyword in Keywords(data[..i]);
      || (!seenBefore && !Matches(fz, before, data[i]) && after == before + [data[i]])
      || (seenBefore && after == before)
      || (!seenBefore && Matches(fz, before, data[i]) && after == before)
  {
    assert data[..i + 1][..i] == data[..i];
    RunSeenIsKeywords(fz, data[..i]);
  }

  /** The same three cases, stated against the final output: with `k` the
      number of rows kept before row `i`, row `i` either sits at position `k`
      of the output, or its keyword occurred earlier in the input, or it is
      mergeable into one of the first `k` output rows. */
  lemma EveryRowAccountedFor(fz: Fuzz, data: seq<Row>, i: nat)
    requires i < |data|
    ensures
      var out := Dedup(fz, data);
      var k := |Dedup(fz, data[..i])|;
      k <= |out| &&
      ((k < |out| && out[k] == data[i]) || data[i].keyword in Keywords(data[..i])
       || exists j :: 0 <= j < k && Mergeable(fz, data[i], out[j]))
  {
    DedupAccountsFor(fz, data, i);
    DedupPrefix(fz, data, i);
    DedupPrefix(fz, data, i + 1);
  }

  /** Deduplicating nothing gives nothing. */
  lemma DedupEmpty(fz: Fuzz)
    ensures Dedup(fz, []) == []
  {
  }

  /** The worked example: "seo tool" follows "seo tools" with the same values
      and a similarity of at least 90, so it is dropped; "widgets" has other
      values and is kept. */
  lemma DedupExample(fz: Fuzz)
    requires fz.ratio(fz.lower("seo tool"), fz.lower("seo tools")) >= 90
    ensures
      var r1 := Row("seo tools", [Num(100.0), Num(2.0), Num(0.5)]);
      var r2 := Row("seo tool", [Num(100.0), Num(2.0), Num(0.5)]);
      var r3 := Row("widgets", [Num(10.0), Num(5.0), Num(0.9)]);
      Dedup(fz, [r1, r2, r3]) == [r1, r3]
  {
    var r1 := Row("seo tools", [Num(100.0), Num(2.0), Num(0.5)]);
    var r2 := Row("seo tool", [Num(100.0), Num(2.0), Num(0.5)]);
    var r3 := Row("widgets", [Num(10.0), Num(5.0), Num(0.9)]);
    var data := [r1, r2, r3];
    assert data[..1] == [r1] && [r1][..0] == [];
    assert data[..2] == [r1, r2] && [r1, r2][..1] == [r1];
    assert [r1, r2, r3][..2] == [r1, r2];
    assert "seo tool" != "seo tools" && "widgets" != "seo tools";
    assert Run(fz, [r1]) == State([r1], {"seo tools"});
    assert Mergeable(fz, r2, r1);
    assert Run(fz, [r1, r2]) == State([r1], {"seo tools", "seo tool"});
    assert "widgets" != "seo tool";
    assert !Mergeable(fz, r3, r1) by { assert r3.rest[0] != r1.rest[0]; }
  }

  /** The loop of `filter_duplicate_keywords`: an outer pass over the rows with
      a `seen` set, and an inner scan over the kept rows that stops at the
      first mergeable one. */
  method FilterDuplicateKeywords(fz: Fuzz, data: seq<Row>) returns (unique: seq<Row>)
    ensures unique == Dedup(fz, data)
    ensures IsSubsequence(unique, data)
    ensures KeywordsDistinct(unique) && NoMergeablePair(fz, unique)
  {
    unique := [];
    var added: set<string> := {};
    for i := 0 to |data|
      invariant Run(fz, data[..i]) == State(unique, added)
    {
      var row1 := data[i];
      var keyword1 := row1.keyword;
      assert data[..i + 1][..i] == data[..i];
      if keyword1 in added {
        continue;
      }
      var similarFound := false;
      var j := 0;
      while j < |unique|
        invariant 0 <= j <= |unique|
        invariant !similarFound && Run(fz, data[..i]) == State(unique, added)
        invariant forall m :: 0 <= m < j ==> !Mergeable(fz, row1, unique[m])
      {
        var uniqueRow := unique[j];
        if IsSimilar(fz, keyword1, uniqueRow.keyword, DedupThreshold) {
          if AreValuesEqual(row1, uniqueRow) {
            similarFound := true;
            added := added + {keyword1};
            break;
          }
        }
        j := j + 1;
      }
      if !similarFound {
        unique := unique + [row1];
        added := added + {keyword1};
      }
    }
    assert data[..|data|] == data;
    DedupSubsequence(fz, data);
    DedupWellFormed(fz, data);
  }
}
