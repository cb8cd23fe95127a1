/** `calculate_percentile`: the rank of a value is its 1-based position of first
    occurrence in the ascending column, and its percentile is
    ((rank - 0.5) / n) * 100. Tied values therefore share the rank of the first
    of them. */
module Percentile {

  /** Non-decreasing order. */
  ghost predicate Ascending(s: seq<real>) {
    forall i, j :: 0 <= i < j < |s| ==> s[i] <= s[j]
  }

  /** Inserts `x` into an ascending sequence, before the first larger element. */
  function Insert(x: real, s: seq<real>): (r: seq<real>)
    ensures |r| == |s| + 1
    ensures multiset(r) == multiset(s) + multiset{x}
  {
    if s == [] then [x]
    else if x <= s[0] then [x] + s
    else
      assert s == [s[0]] + s[1..];
      [s[0]] + Insert(x, s[1..])
  }

  lemma {:induction false} InsertAscending(x: real, s: seq<real>)
    requires Ascending(s)
    ensures Ascending(Insert(x, s))
    decreases |s|
  {
    if s != [] && s[0] < x {
      var tail := Insert(x, s[1..]);
      InsertAscending(x, s[1..]);
      forall k | 0 <= k < |tail| ensures s[0] <= tail[k] {
        assert tail[k] in multiset(tail);
        assert tail[k] == x || tail[k] in multiset(s[1..]);
        if tail[k] != x {
          assert tail[k] in s[1..];
          var m :| 0 <= m < |s[1..]| && s[1..][m] == tail[k];
          assert s[m + 1] == tail[k];
        }
      }
      assert Insert(x, s) == [s[0]] + tail;
    }
  }

  /** Python's `sorted` on a numeric column: the ascending permutation. It is
      written as an insertion sort; any other ascending sort gives the same
      sequence (see SortedIsUnique). */
  function SortAsc(s: seq<real>): (r: seq<real>)
    ensures |r| == |s|
    ensures multiset(r) == multiset(s)
    ensures Ascending(r)
  {
    if s == [] then []
    else
      assert s == [s[0]] + s[1..];
      InsertAscending(s[0], SortAsc(s[1..]));
      Insert(s[0], SortAsc(s[1..]))
  }

  /** Two ascending sequences with the same elements are equal, so the rank
      below does not depend on how the column was sorted. */
  lemma {:induction false} SortedIsUnique(a: seq<real>, b: seq<real>)
    requires Ascending(a) && Ascending(b) && multiset(a) == multiset(b)
    ensures a == b
    decreases |a|
  {
    if a != [] {
      assert |b| == |multiset(b)| == |multiset(a)| == |a|;
      HeadIsLeast(a, b[0]);
      HeadIsLeast(b, a[0]);
      assert a[0] == b[0];
      TailMultiset(a);
      TailMultiset(b);
      SortedIsUnique(a[1..], b[1..]);
    }
  }

  /** The first entry of an ascending sequence is its least element. */
  lemma HeadIsLeast(a: seq<real>, x: real)
    requires Ascending(a) && x in multiset(a)
    ensures a[0] <= x
  {
    var k :| 0 <= k < |a| && a[k] == x;
    assert a[0] <= a[k];
  }

  lemma TailMultiset(a: seq<real>)
    requires a != []
    ensures multiset(a[1..]) == multiset(a) - multiset{a[0]}
  {
    assert a == [a[0]] + a[1..];
  }

  /** `list.index`: the first position holding `v`. */
  function FirstIndex(s: seq<real>, v: real): (i: nat)
    requires v in s
    ensures i < |s| && s[i] == v
    ensures forall j :: 0 <= j < i ==> s[j] != v
  {
    if s[0] == v then 0 else 1 + FirstIndex(s[1..], v)
  }

  /** How many entries of `s` are strictly smaller than `v`. */
  function CountLess(s: seq<real>, v: real): nat {
    if s == [] then 0 else (if s[0] < v then 1 else 0) + CountLess(s[1..], v)
  }

  lemma {:induction false} CountLessAppend(a: seq<real>, b: seq<real>, v: real)
    ensures CountLess(a + b, v) == CountLess(a, v) + CountLess(b, v)
    decreases |a|
  {
    if a != [] {
      assert (a + b)[0] == a[0] && (a + b)[1..] == a[1..] + b;
      CountLessAppend(a[1..], b, v);
      assert CountLess(a + b, v) == (if a[0] < v then 1 else 0) + CountLess(a[1..] + b, v);
    } else {
      assert a + b == b;
    }
  }

  /** The count depends only on the multiset of the entries. */
  lemma {:induction false} CountLessPermutation(a: seq<real>, b: seq<real>, v: real)
    requires multiset(a) == multiset(b)
    ensures CountLess(a, v) == CountLess(b, v)
    decreases |a|
  {
    if a == [] {
      assert |b| == |multiset(b)| == 0;
    } else {
      var x := a[0];
      assert x in multiset(b);
      var k :| 0 <= k < |b| && b[k] == x;
      var b' := b[..k] + b[k + 1..];
      assert b == b[..k] + [x] + b[k + 1..];
      RemoveAtMultiset(b, k);
      TailMultiset(a);
      CountLessPermutation(a[1..], b', v);
      CountLessAppend(b[..k] + [x], b[k + 1..], v);
      CountLessAppend(b[..k], [x], v);
      CountLessAppend(b[..k], b[k + 1..], v);
    }
  }

  lemma RemoveAtMultiset(b: seq<real>, k: nat)
    requires k < |b|
    ensures multiset(b[..k] + b[k + 1..]) == multiset(b) - multiset{b[k]}
  {
    assert b == b[..k] + [b[k]] + b[k + 1..];
    assert multiset(b) == multiset(b[..k]) + multiset{b[k]} + multiset(b[k + 1..]);
  }

  /** No entry below `v`, count zero. */
  lemma {:induction false} CountLessNone(s: seq<real>, v: real)
    requires forall j :: 0 <= j < |s| ==> v <= s[j]
    ensures CountLess(s, v) == 0
    decreases |s|
  {
    if s != [] {
      CountLessNone(s[1..], v);
    }
  }

  /** In an ascending sequence, the first position of `v` is the number of
      entries smaller than `v`. */
  lemma {:induction false} FirstIndexIsCountLess(t: seq<real>, v: real)
    requires Ascending(t) && v in t
    ensures FirstIndex(t, v) == CountLess(t, v)
    decreases |t|
  {
    if t[0] == v {
      CountLessNone(t, v);
    } else {
      assert v in t[1..];
      FirstIndexIsCountLess(t[1..], v);
    }
  }

  /** The 1-based rank the source computes, `sorted_data.index(value) + 1`, is
      one more than the number of column values strictly smaller than `v`. */
  lemma RankIsCountLess(column: seq<real>, v: real)
    requires v in column
    ensures v in SortAsc(column)
    ensures FirstIndex(SortAsc(column), v) == CountLess(column, v)
  {
    var t := SortAsc(column);
    assert v in multiset(column);
    assert v in t;
    FirstIndexIsCountLess(t, v);
    CountLessPermutation(t, column, v);
  }

  /** A value of the column has fewer than n smaller values, so its rank is at
      most n. */
  lemma {:induction false} CountLessBelowLength(s: seq<real>, v: real)
    requires v in s
    ensures CountLess(s, v) < |s|
    decreases |s|
  {
    if s[0] != v {
      assert v in s[1..];
      CountLessBelowLength(s[1..], v);
    } else if s[1..] != [] {
      CountLessAtMostLength(s[1..], v);
    }
  }

  lemma {:induction false} CountLessAtMostLength(s: seq<real>, v: real)
    ensures CountLess(s, v) <= |s|
    decreases |s|
  {
    if s != [] {
      CountLessAtMostLength(s[1..], v);
    }
  }

  /** A larger value has at least as many smaller values. */
  lemma {:induction false} CountLessMonotone(s: seq<real>, v: real, w: real)
    requires v <= w
    ensures CountLess(s, v) <= CountLess(s, w)
    decreases |s|
  {
    if s != [] {
      CountLessMonotone(s[1..], v, w);
    }
  }

  /** A strictly larger value than some column value `v` counts `v` itself. */
  lemma {:induction false} CountLessStrict(s: seq<real>, v: real, w: real)
    requires v in s && v < w
    ensures CountLess(s, v) < CountLess(s, w)
    decreases |s|
  {
    if s[0] == v {
      CountLessMonotone(s[1..], v, w);
    } else {
      assert v in s[1..];
      CountLessStrict(s[1..], v, w);
    }
  }

  /** A positive quotient below one. */
  lemma ProperFraction(a: real, b: real)
    requires 0.0 < a < b
    ensures 0.0 < a / b < 1.0
  {
    var q := a / b;
    assert q * b == a;
    if q >= 1.0 {
      assert false;
    }
  }

  /** The percentile of rank `r` among `n` values. */
  function Pct(r: nat, n: nat): (p: real)
    requires n > 0
    ensures 1 <= r <= n ==> 0.0 < p < 100.0
  {
    var q := (r as real - 0.5) / n as real;
    if 1 <= r <= n then
      ProperFraction(r as real - 0.5, n as real);
      q * 100.0
    else
      q * 100.0
  }

  /** Ranks 1..n give percentiles in [50/n, 100 - 50/n]. */
  lemma PctBounds(r: nat, n: nat)
    requires 1 <= r <= n
    ensures 50.0 / n as real <= Pct(r, n) <= 100.0 - 50.0 / n as real
  {
    var m := n as real;
    assert Pct(r, n) == (100.0 * r as real - 50.0) / m;
    assert 100.0 - 50.0 / m == (100.0 * m - 50.0) / m;
    QuotientMonotone(50.0, 100.0 * r as real - 50.0, m);
    QuotientMonotone(100.0 * r as real - 50.0, 100.0 * m - 50.0, m);
  }

  /** Dividing by a positive number keeps order. */
  lemma QuotientMonotone(a: real, b: real, m: real)
    requires a <= b && m > 0.0
    ensures a / m <= b / m
  {
    assert b / m - a / m == (b - a) / m;
  }

  /** A higher rank gives a strictly higher percentile. */
  lemma PctStrictlyIncreasing(r1: nat, r2: nat, n: nat)
    requires r1 < r2 && n > 0
    ensures Pct(r1, n) < Pct(r2, n)
  {
  }

  /** The percentile column: one value per row, in row order. */
  ghost function Percentiles(column: seq<real>): (ps: seq<real>)
    ensures |ps| == |column|
  {
    seq(|column|, i requires 0 <= i < |column| => Pct(CountLess(column, column[i]) + 1, |column|))
  }

  /** Every percentile lies in [50/n, 100 - 50/n], hence in [0, 100]. */
  lemma PercentilesInRange(column: seq<real>, i: nat)
    requires i < |column|
    ensures var n := |column| as real;
      50.0 / n <= Percentiles(column)[i] <= 100.0 - 50.0 / n
      && 0.0 < Percentiles(column)[i] < 100.0
  {
    CountLessBelowLength(column, column[i]);
    PctBounds(CountLess(column, column[i]) + 1, |column|);
  }

  /** Percentiles order the rows exactly as their values do: equal values get
      equal percentiles, and a smaller value a strictly smaller percentile. */
  lemma PercentilesFollowValues(column: seq<real>, i: nat, j: nat)
    requires i < |column| && j < |column|
    ensures column[i] <= column[j] <==> Percentiles(column)[i] <= Percentiles(column)[j]
    ensures column[i] == column[j] <==> Percentiles(column)[i] == Percentiles(column)[j]
  {
    var n := |column|;
    var ci, cj := CountLess(column, column[i]), CountLess(column, column[j]);
    if column[i] < column[j] {
      CountLessStrict(column, column[i], column[j]);
      PctStrictlyIncreasing(ci + 1, cj + 1, n);
    } else if column[j] < column[i] {
      CountLessStrict(column, column[j], column[i]);
      PctStrictlyIncreasing(cj + 1, ci + 1, n);
    }
  }

  /** A column of equal values puts every row at the first rank: 50/n, not 50. */
  lemma PercentilesAllEqual(column: seq<real>, i: nat)
    requires i < |column|
    requires forall j :: 0 <= j < |column| ==> column[j] == column[0]
    ensures Percentiles(column)[i] == 50.0 / |column| as real
  {
    CountLessNone(column, column[i]);
  }

  /** The worked example: the column [10, 50, 100] gives [50/3, 50, 250/3]. */
  lemma PercentilesExample()
    ensures Percentiles([10.0, 50.0, 100.0]) == [50.0 / 3.0, 50.0, 250.0 / 3.0]
  {
    var c := [10.0, 50.0, 100.0];
    assert c[1..] == [50.0, 100.0] && c[1..][1..] == [100.0] && c[1..][1..][1..] == [];
    assert CountLess(c, 10.0) == 0;
    assert CountLess(c, 50.0) == 1;
    assert CountLess(c, 100.0) == 2;
  }

  /** The loop of `calculate_percentile`: sort once, then for each value in row
      order look up its first position in the sorted column. An empty column
      gives an empty result and no division. */
  method CalculatePercentile(column: seq<real>) returns (percentiles: seq<real>)
    ensures percentiles == Percentiles(column)
    ensures |percentiles| == |column|
  {
    ghost var spec := Percentiles(column);
    var sortedData := SortAsc(column);
    var n := |sortedData|;
    percentiles := [];
    for i := 0 to |column|
      invariant percentiles == spec[..i]
    {
      var value := column[i];
      assert value in sortedData && FirstIndex(sortedData, value) == CountLess(column, value) by {
        RankIsCountLess(column, value);
      }
      var r := FirstIndex(sortedData, value) + 1;
      var k := ((r as real - 0.5) / n as real) * 100.0;
      assert k == Pct(r, n);
      assert Pct(r, n) == spec[i];
      assert spec[..i + 1] == spec[..i] + [k];
      percentiles := percentiles + [k];
    }
    assert spec[..|column|] == spec;
  }
}
