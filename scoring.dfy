/** `calculate_point_value` and the scoring steps of the upload handler: three
    percentile columns are combined into one Point Value per row. */
module Scoring {
  import opened Percentile

  /** A high search-volume percentile raises the score. High CPC and
      competition percentiles lower it. The three terms have equal weight. */
  function PointValue(searchPct: real, cpcPct: real, competitionPct: real): (v: real)
    ensures 0.0 <= searchPct <= 100.0 && 0.0 <= cpcPct <= 100.0 && 0.0 <= competitionPct <= 100.0
            ==> 0.0 <= v <= 100.0
  {
    (searchPct + (100.0 - cpcPct) + (100.0 - competitionPct)) / 3.0
  }

  /** Three middle percentiles give a middle score. */
  lemma PointValueMidpoint()
    ensures PointValue(50.0, 50.0, 50.0) == 50.0
  {
  }

  /** The score is non-decreasing in the search-volume percentile and
      non-increasing in the CPC and competition percentiles. */
  lemma PointValueMonotone(s1: real, c1: real, k1: real, s2: real, c2: real, k2: real)
    requires s1 <= s2 && c2 <= c1 && k2 <= k1
    ensures PointValue(s1, c1, k1) <= PointValue(s2, c2, k2)
  {
  }

  /** The `Point Value` column, computed row by row from the three percentile
      columns of the same table. */
  function CalculatePointValue(searchPcts: seq<real>, cpcPcts: seq<real>, competitionPcts: seq<real>): (pv: seq<real>)
    requires |searchPcts| == |cpcPcts| == |competitionPcts|
    ensures |pv| == |searchPcts|
    ensures forall i :: 0 <= i < |pv| ==>
      (0.0 <= searchPcts[i] <= 100.0 && 0.0 <= cpcPcts[i] <= 100.0 && 0.0 <= competitionPcts[i] <= 100.0
       ==> 0.0 <= pv[i] <= 100.0)
  {
    seq(|searchPcts|, i requires 0 <= i < |searchPcts| => PointValue(searchPcts[i], cpcPcts[i], competitionPcts[i]))
  }

  /** The scoring half of the upload handler: percentiles of the search-volume,
      CPC and competition columns, then the point values. */
  ghost function ScoreColumns(searchVolume: seq<real>, cpc: seq<real>, competition: seq<real>): (scores: seq<real>)
    requires |searchVolume| == |cpc| == |competition|
    ensures |scores| == |searchVolume|
  {
    CalculatePointValue(Percentiles(searchVolume), Percentiles(cpc), Percentiles(competition))
  }

  /** Every point value of a scored table lies in [0, 100]. */
  lemma ScoresInRange(searchVolume: seq<real>, cpc: seq<real>, competition: seq<real>, i: nat)
    requires |searchVolume| == |cpc| == |competition| && i < |searchVolume|
    ensures |ScoreColumns(searchVolume, cpc, competition)| == |searchVolume|
    ensures 0.0 <= ScoreColumns(searchVolume, cpc, competition)[i] <= 100.0
  {
    PercentilesInRange(searchVolume, i);
    PercentilesInRange(cpc, i);
    PercentilesInRange(competition, i);
  }

  /** A row with no less search volume, and no more CPC or competition, than
      another row scores at least as high. */
  lemma ScoreDominance(searchVolume: seq<real>, cpc: seq<real>, competition: seq<real>, i: nat, j: nat)
    requires |searchVolume| == |cpc| == |competition| && i < |searchVolume| && j < |searchVolume|
    requires searchVolume[i] <= searchVolume[j] && cpc[j] <= cpc[i] && competition[j] <= competition[i]
    ensures ScoreColumns(searchVolume, cpc, competition)[i] <= ScoreColumns(searchVolume, cpc, competition)[j]
  {
    PercentilesFollowValues(searchVolume, i, j);
    PercentilesFollowValues(cpc, j, i);
    PercentilesFollowValues(competition, j, i);
    PointValueMonotone(
      Percentiles(searchVolume)[i], Percentiles(cpc)[i], Percentiles(competition)[i],
      Percentiles(searchVolume)[j], Percentiles(cpc)[j], Percentiles(competition)[j]);
  }
}
