/**
 * The comparison-only part of NBLAST scoring: the bin lookup into the
 * 21 x 10 score table, and the index structure of the raw and mean score
 * matrices. Distances, dot products and scores are reals; float32 rounding
 * of the thresholds and of the scores is not modelled.
 */
module Nblast {

  /** The largest finite float32, used as the last distance threshold. */
  const FltMax: real := 340282346638528859811704183484516925440.0

  /** Distance bin thresholds in nanometres; the first entry is out of order. */
  const DistThresholds: seq<real> := [1000.0, 750.0, 1500.0, 2000.0, 2500.0, 3000.0, 3500.0,
    4000.0, 5000.0, 6000.0, 7000.0, 8000.0, 9000.0, 10000.0, 12000.0, 14000.0, 16000.0,
    20000.0, 25000.0, 30000.0, 40000.0, FltMax]

  /** Absolute-dot-product bin thresholds. */
  const AdpThresholds: seq<real> := [0.0, 0.1, 0.2, 0.3, 0.4, 0.5, 0.6, 0.7, 0.8, 0.9, 1.0]

  const TableRows: nat := 21
  const TableCols: nat := 10

  /** Every threshold from index 1 on is at most its successor (index 0 is never read). */
  predicate SortedFromOne(t: seq<real>) {
    forall i :: 1 <= i < |t| - 1 ==> t[i] <= t[i + 1]
  }

  /** The search answer `r` is bracketed: `t[r] < v <= t[r + 1]`, with open ends. */
  predicate Brackets(t: seq<real>, v: real, r: nat) {
    r < |t| && (r == 0 || t[r] < v) && (r + 1 == |t| || v <= t[r + 1])
  }

  /** The number of thresholds after the first that lie strictly below `v`. */
  function CountBelow(t: seq<real>, v: real): (n: nat)
    ensures |t| > 0 ==> n < |t|
    ensures |t| <= 1 ==> n == 0
  {
    if |t| <= 1 then 0
    else CountBelow(t[..|t| - 1], v) + (if t[|t| - 1] < v then 1 else 0)
  }

  lemma {:induction false} SortedFromOnePairwise(t: seq<real>, i: int, j: int)
    requires SortedFromOne(t)
    requires 1 <= i <= j < |t|
    ensures t[i] <= t[j]
  {
    if i < j {
      SortedFromOnePairwise(t, i, j - 1);
    }
  }

  /**
   * On a prefix `t[..k]` of thresholds that are below `v` exactly up to
   * index `r`, the count below is the number of indices 1..min(r, k - 1).
   */
  lemma {:induction false} CountBelowOfSplit(t: seq<real>, v: real, r: nat, k: nat)
    requires 1 <= k <= |t|
    requires forall i :: 1 <= i <= r && i < |t| ==> t[i] < v
    requires forall i :: r < i < |t| ==> v <= t[i]
    ensures CountBelow(t[..k], v) == if r < k - 1 then r else k - 1
  {
    if k > 1 {
      assert t[..k][..k - 1] == t[..k - 1];
      CountBelowOfSplit(t, v, r, k - 1);
    }
  }

  /** With thresholds sorted from index 1, a bracketed answer is the count below. */
  lemma BracketIsCountBelow(t: seq<real>, v: real, r: nat)
    requires SortedFromOne(t)
    requires Brackets(t, v, r)
    ensures r == CountBelow(t, v)
  {
    forall i | 1 <= i <= r && i < |t| ensures t[i] < v {
      SortedFromOnePairwise(t, i, r);
    }
    forall i | r < i < |t| ensures v <= t[i] {
      SortedFromOnePairwise(t, r + 1, i);
    }
    CountBelowOfSplit(t, v, r, |t|);
    assert t[..|t|] == t;
  }

  /**
   * With thresholds sorted from index 1, the count below is the largest
   * index whose threshold is below `v`, or 0 when there is none.
   */
  lemma {:induction false} CountBelowIsLargestBelow(t: seq<real>, v: real)
    requires SortedFromOne(t) && |t| > 0
    ensures var n := CountBelow(t, v);
      (n == 0 || t[n] < v) && forall i :: n < i < |t| ==> v <= t[i]
  {
    if |t| > 1 {
      var p := t[..|t| - 1];
      assert SortedFromOne(p);
      CountBelowIsLargestBelow(p, v);
      var m := CountBelow(p, v);
      if t[|t| - 1] < v {
        forall i | 1 <= i < |t| - 1 ensures t[i] < v {
          SortedFromOnePairwise(t, i, |t| - 1);
        }
      }
    }
  }

  /**
   * ScoreTable::binary_search: halve `[start, stop)` until one index is
   * left. It reads only indices 1 and up, so the answer brackets `v`
   * whatever `thresholds[0]` is, and is the count below `v` whenever the
   * thresholds are sorted from index 1.
   */
  method BinarySearch(thresholds: seq<real>, v: real) returns (r: nat)
    ensures |thresholds| == 0 ==> r == 0
    ensures |thresholds| > 0 ==> Brackets(thresholds, v, r)
    ensures SortedFromOne(thresholds) ==> r == CountBelow(thresholds, v)
  {
    var start: nat, stop: nat := 0, |thresholds|;
    while stop - start > 1
      invariant start <= stop <= |thresholds|
      invariant |thresholds| > 0 ==> start < stop
      invariant start == 0 || thresholds[start] < v
      invariant stop == |thresholds| || v <= thresholds[stop]
      decreases stop - start
    {
      var middle := (stop - start) / 2 + start;
      if v > thresholds[middle] {
        start := middle;
      } else {
        stop := middle;
      }
    }
    r := start;
    if |thresholds| > 0 && SortedFromOne(thresholds) {
      BracketIsCountBelow(thresholds, v, r);
    }
  }

  lemma DistThresholdsSorted()
    ensures |DistThresholds| == 22 && SortedFromOne(DistThresholds)
    ensures DistThresholds[0] > DistThresholds[1]
  {
  }

  lemma AdpThresholdsSorted()
    ensures |AdpThresholds| == 11 && SortedFromOne(AdpThresholds)
  {
  }

  /** The count below reaches the last index exactly when the last threshold is below `v`. */
  lemma {:induction false} CountBelowAtTop(t: seq<real>, v: real)
    requires SortedFromOne(t) && |t| >= 2
    ensures CountBelow(t, v) == |t| - 1 <==> t[|t| - 1] < v
  {
    CountBelowIsLargestBelow(t, v);
  }

  /**
   * The adp bin of ScoreTable::operator() is 10, one past the last of the
   * table's 10 columns, exactly when the absolute dot product exceeds 1.
   */
  lemma AdpIndexPastTable(adp: real)
    ensures CountBelow(AdpThresholds, adp) == TableCols <==> adp > 1.0
    ensures CountBelow(AdpThresholds, adp) <= TableCols
  {
    AdpThresholdsSorted();
    CountBelowAtTop(AdpThresholds, adp);
  }

  /**
   * The distance bin is 21, one past the last of the table's 21 rows,
   * exactly when the distance exceeds the largest finite float32.
   */
  lemma DistIndexPastTable(dist: real)
    ensures CountBelow(DistThresholds, dist) == TableRows <==> dist > FltMax
    ensures CountBelow(DistThresholds, dist) <= TableRows
  {
    DistThresholdsSorted();
    CountBelowAtTop(DistThresholds, dist);
  }

  /** A score table: 21 distance rows by 10 adp columns. */
  datatype ScoreTable = ScoreTable(table: seq<seq<real>>) {
    predicate WellShaped() {
      |table| == TableRows && forall i :: 0 <= i < |table| ==> |table[i]| == TableCols
    }
  }

  /**
   * ScoreTable::operator() as written: the two bins it reads the table at.
   * The pair can fall outside the 21 x 10 table (see AdpIndexPastTable and
   * DistIndexPastTable).
   */
  method LookupIndices(dist: real, adp: real) returns (distIdx: nat, adpIdx: nat)
    ensures distIdx == CountBelow(DistThresholds, dist) && adpIdx == CountBelow(AdpThresholds, adp)
    ensures distIdx <= TableRows && adpIdx <= TableCols
    ensures distIdx < TableRows && adpIdx < TableCols <==> dist <= FltMax && adp <= 1.0
  {
    DistThresholdsSorted();
    AdpThresholdsSorted();
    distIdx := BinarySearch(DistThresholds, dist);
    adpIdx := BinarySearch(AdpThresholds, adp);
    DistIndexPastTable(dist);
    AdpIndexPastTable(adp);
  }

  /** The bins clamped to the table: values past the last threshold use the last bin. */
  function ClampedBins(dist: real, adp: real): (bins: (nat, nat))
    ensures bins.0 < TableRows && bins.1 < TableCols
    ensures dist <= FltMax ==> bins.0 == CountBelow(DistThresholds, dist)
    ensures adp <= 1.0 ==> bins.1 == CountBelow(AdpThresholds, adp)
    ensures dist > FltMax ==> bins.0 == TableRows - 1
    ensures adp > 1.0 ==> bins.1 == TableCols - 1
  {
    DistIndexPastTable(dist);
    AdpIndexPastTable(adp);
    var d := CountBelow(DistThresholds, dist);
    var a := CountBelow(AdpThresholds, adp);
    (if d < TableRows then d else TableRows - 1, if a < TableCols then a else TableCols - 1)
  }

  /**
   * ScoreTable::operator() with the bins clamped to the table: the score of
   * the bins binary_search finds, or of the last row or column for inputs
   * past the last threshold.
   */
  method Score(st: ScoreTable, dist: real, adp: real) returns (s: real)
    requires st.WellShaped()
    ensures s == st.table[ClampedBins(dist, adp).0][ClampedBins(dist, adp).1]
    ensures dist <= FltMax && adp <= 1.0 ==>
      s == st.table[CountBelow(DistThresholds, dist)][CountBelow(AdpThresholds, adp)]
  {
    var distIdx, adpIdx := LookupIndices(dist, adp);
    if distIdx >= TableRows {
      distIdx := TableRows - 1;
    }
    if adpIdx >= TableCols {
      adpIdx := TableCols - 1;
    }
    s := st.table[distIdx][adpIdx];
  }

  /**
   * The NBLASTScoreMatrix constructor loops: for every target row `t`, the
   * query columns `q >= t` get `score(t, q)`; the strict lower triangle
   * keeps whatever the uninitialised matrix held.
   */
  method FillUpperTriangle(m: array2<real>, score: (nat, nat) -> real)
    requires m.Length0 == m.Length1
    modifies m
    ensures forall t, q :: 0 <= t <= q < m.Length0 ==> m[t, q] == score(t, q)
    ensures forall t, q :: 0 <= q < t < m.Length0 ==> m[t, q] == old(m[t, q])
  {
    var n := m.Length0;
    for t := 0 to n
      invariant forall i, j :: 0 <= i < t && i <= j < n ==> m[i, j] == score(i, j)
      invariant forall i, j :: 0 <= i < n && 0 <= j < n && (t <= i || j < i) ==> m[i, j] == old(m[i, j])
    {
      for q := t to n
        invariant forall i, j :: 0 <= i < t && i <= j < n ==> m[i, j] == score(i, j)
        invariant forall j :: t <= j < q ==> m[t, j] == score(t, j)
        invariant forall i, j :: 0 <= i < n && 0 <= j < n && (t < i || j < i || (i == t && q <= j)) ==>
          m[i, j] == old(m[i, j])
      {
        m[t, q] := score(t, q);
      }
    }
  }

  /**
   * The raw NBLAST score matrix; rows are targets, columns are queries.
   * `score(t, q)` stands for `vectorClouds[t].query_by(vectorClouds[q], table)`.
   */
  class NBLASTScoreMatrix {
    var rawScoreMatrix: array2<real>

    constructor (vcNum: nat, score: (nat, nat) -> real)
      ensures rawScoreMatrix.Length0 == vcNum && rawScoreMatrix.Length1 == vcNum
      ensures forall t, q :: 0 <= t <= q < vcNum ==> rawScoreMatrix[t, q] == score(t, q)
    {
      var m := new real[vcNum, vcNum];
      FillUpperTriangle(m, score);
      rawScoreMatrix := m;
    }
  }

  /** The mean of the two directed normalised scores of a pair, and 1 on the diagonal. */
  function MeanEntry(normalized: array2<real>, t: nat, q: nat): real
    requires t < normalized.Length0 && q < normalized.Length0 && normalized.Length0 == normalized.Length1
    reads normalized
  {
    if t == q then 1.0 else (normalized[t, q] + normalized[q, t]) / 2.0
  }

  /**
   * get_mean_score_matrix, on the normalised matrix: start from ones, and for
   * each pair above the diagonal write the mean of both directions into both
   * cells. The result is symmetric with a unit diagonal.
   */
  method MeanScoreMatrix(normalized: array2<real>) returns (mean: array2<real>)
    requires normalized.Length0 == normalized.Length1
    ensures mean.Length0 == normalized.Length0 && mean.Length1 == normalized.Length1
    ensures forall i :: 0 <= i < mean.Length0 ==> mean[i, i] == 1.0
    ensures forall i, j :: 0 <= i < mean.Length0 && 0 <= j < mean.Length0 ==> mean[i, j] == mean[j, i]
    ensures forall i, j :: 0 <= i < j < mean.Length0 ==>
      mean[i, j] == (normalized[i, j] + normalized[j, i]) / 2.0
  {
    var n := normalized.Length0;
    mean := new real[n, n]((i, j) => 1.0);
    for t := 0 to n
      invariant forall i, j :: 0 <= i < n && 0 <= j < n ==>
        mean[i, j] == if i < t && i < j then MeanEntry(normalized, i, j)
                      else if j < t && j < i then MeanEntry(normalized, j, i)
                      else 1.0
    {
      for q := t + 1 to n
        invariant forall i, j :: 0 <= i < n && 0 <= j < n ==>
          mean[i, j] == if (i < t || (i == t && j < q)) && i < j then MeanEntry(normalized, i, j)
                        else if (j < t || (j == t && i < q)) && j < i then MeanEntry(normalized, j, i)
                        else 1.0
      {
        mean[t, q] := (normalized[t, q] + normalized[q, t]) / 2.0;
        mean[q, t] := mean[t, q];
      }
    }
  }
}
