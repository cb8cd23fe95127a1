/** Rows of the keyword table and the two primitives every later stage uses:
    the fuzzy keyword-similarity test and the row-value equality test. */
module Records {

  /** One metric cell. Integer and float cells are both `Num`, so 100 and 100.0
      compare equal, as they do in Python. */
  datatype Value = Num(x: real) | Text(s: string)

  /** One row of the table. The Keyword column is the first column, and `rest`
      holds every later column in order. */
  datatype Row = Row(keyword: string, rest: seq<Value>)

  /** A fuzzy-ratio score, 0..100. */
  type Score = x: int | 0 <= x <= 100

  /** The foreign string library: `lower` stands for `str.lower` and `ratio`
      for `fuzz.ratio`. Both are left uninterpreted. `ratio` is not assumed
      to be symmetric. */
  datatype Fuzz = Fuzz(lower: string -> string, ratio: (string, string) -> Score)

  /** Default threshold of `is_similar`, which deduplication uses. */
  const DedupThreshold: int := 90
  /** Default threshold of `search_keyword`. */
  const SearchDefaultThreshold: int := 40
  /** Threshold that the result page passes to `search_keyword`. */
  const SearchViewThreshold: int := 50

  /** `is_similar`: the ratio of the lower-cased keywords, in the given
      argument order, reaches the threshold. */
  function IsSimilar(fz: Fuzz, keyword1: string, keyword2: string, threshold: int): (b: bool)
    ensures threshold <= 0 ==> b
    ensures threshold > 100 ==> !b
  {
    fz.ratio(fz.lower(keyword1), fz.lower(keyword2)) >= threshold
  }

  /** Similarity sees keywords only through `lower`, so it is case-insensitive
      to the extent that `lower` is. */
  lemma SimilarIsCaseInsensitive(fz: Fuzz, a: string, a': string, b: string, b': string, threshold: int)
    requires fz.lower(a) == fz.lower(a') && fz.lower(b) == fz.lower(b')
    ensures IsSimilar(fz, a, b, threshold) == IsSimilar(fz, a', b', threshold)
  {
  }

  /** A pair that is similar at one threshold is similar at every lower one.
      So a match at the 50 used by the result page is also a match at the
      default of 40. */
  lemma SimilarThresholdMonotone(fz: Fuzz, a: string, b: string, t1: int, t2: int)
    requires t1 <= t2 && IsSimilar(fz, a, b, t2)
    ensures IsSimilar(fz, a, b, t1)
  {
  }

  /** `are_values_equal`: every column except the first (the Keyword) agrees,
      position by position. */
  function AreValuesEqual(row1: Row, row2: Row): (b: bool)
    ensures b <==> |row1.rest| == |row2.rest| && forall i :: 0 <= i < |row1.rest| ==> row1.rest[i] == row2.rest[i]
  {
    row1.rest == row2.rest
  }

  /** The keyword never takes part in the value comparison. */
  lemma ValuesEqualIgnoresKeyword(row1: Row, row2: Row, k1: string, k2: string)
    ensures AreValuesEqual(row1.(keyword := k1), row2.(keyword := k2)) == AreValuesEqual(row1, row2)
  {
  }
}
