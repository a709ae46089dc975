/**
 * Score post-processing of Functions.py: min-max rescaling of the combined-score column
 * (`normalize_combined_score`) and the confidence tiers (`confidence`).
 */
module Scores {

  /** A float cell of the score column: a number, or NaN after a division of 0 by 0. */
  datatype Num = Val(v: real) | NaN

  /** The confidence labels; `NoMatch` is the one the collision pass writes (`'No Match'`). */
  datatype Tier = High | Medium | Low | NoMatch

  /** `confidence(combined_score)`. A NaN fails both comparisons, so it falls through to `Low`. */
  function Confidence(score: Num): (t: Tier)
    ensures t != NoMatch
    ensures t == High <==> score.Val? && score.v >= 0.70
    ensures t == Medium <==> score.Val? && 0.40 <= score.v < 0.70
    ensures t == Low <==> score.NaN? || score.v < 0.40
  {
    if score.Val? && score.v >= 0.70 then High
    else if score.Val? && score.v >= 0.40 then Medium
    else Low
  }

  /** The order of the tiers, `Low` lowest. */
  function Rank(t: Tier): nat {
    match t
    case NoMatch => 0
    case Low => 1
    case Medium => 2
    case High => 3
  }

  /** The tiers are monotone in the score: a higher score never gets a lower tier. */
  lemma ConfidenceMonotone(a: real, b: real)
    requires a <= b
    ensures Rank(Confidence(Val(a))) <= Rank(Confidence(Val(b)))
  {
  }

  /** The smallest value of a non-empty column (`Series.min()`). */
  function Min(xs: seq<real>): (m: real)
    requires |xs| > 0
    ensures m in xs
    ensures forall i :: 0 <= i < |xs| ==> m <= xs[i]
  {
    if |xs| == 1 then xs[0]
    else
      var rest := Min(xs[1..]);
      assert forall i :: 1 <= i < |xs| ==> xs[i] == xs[1..][i - 1];
      if xs[0] <= rest then xs[0] else rest
  }

  /** The largest value of a non-empty column (`Series.max()`). */
  function Max(xs: seq<real>): (m: real)
    requires |xs| > 0
    ensures m in xs
    ensures forall i :: 0 <= i < |xs| ==> xs[i] <= m
  {
    if |xs| == 1 then xs[0]
    else
      var rest := Max(xs[1..]);
      assert forall i :: 1 <= i < |xs| ==> xs[i] == xs[1..][i - 1];
      if xs[0] >= rest then xs[0] else rest
  }

  /** The column holds at least two different values, so min-max rescaling is defined. */
  predicate HasSpread(xs: seq<real>) {
    |xs| > 0 && Min(xs) < Max(xs)
  }

  /** Min-max rescaling of one value. */
  function Rescale(x: real, lo: real, hi: real): real
    requires lo < hi
  {
    (x - lo) / (hi - lo)
  }

  lemma ScaleMonotone(a: real, b: real, d: real)
    requires d > 0.0
    ensures a <= b <==> a * d <= b * d
  {
    if a <= b {
      assert (b - a) * d >= 0.0;
    } else {
      assert (a - b) * d > 0.0;
    }
  }

  /** Rescaling sends `lo` to 0 and `hi` to 1, keeps order both ways, and maps [lo, hi] into [0,1]. */
  lemma RescaleFacts(x: real, y: real, lo: real, hi: real)
    requires lo < hi
    ensures Rescale(x, lo, hi) == 0.0 <==> x == lo
    ensures Rescale(x, lo, hi) == 1.0 <==> x == hi
    ensures x <= y <==> Rescale(x, lo, hi) <= Rescale(y, lo, hi)
    ensures lo <= x <= hi ==> 0.0 <= Rescale(x, lo, hi) <= 1.0
  {
    var d := hi - lo;
    var rx, ry := Rescale(x, lo, hi), Rescale(y, lo, hi);
    assert rx * d == x - lo;
    assert ry * d == y - lo;
    ScaleMonotone(rx, ry, d);
    ScaleMonotone(rx, 0.0, d);
    ScaleMonotone(0.0, rx, d);
    ScaleMonotone(rx, 1.0, d);
    ScaleMonotone(1.0, rx, d);
  }

  /**
   * `normalize_combined_score`. When the column has no spread, `max - min` is 0 and every
   * cell becomes 0/0, which pandas evaluates to NaN.
   */
  function Normalize(xs: seq<real>): (r: seq<Num>)
    ensures |r| == |xs|
    ensures forall i :: 0 <= i < |r| ==> (r[i] == NaN <==> !HasSpread(xs))
  {
    if HasSpread(xs) then
      var lo := Min(xs);
      var hi := Max(xs);
      seq(|xs|, i requires 0 <= i < |xs| => Val(Rescale(xs[i], lo, hi)))
    else
      seq(|xs|, i => NaN)
  }

  /**
   * When the column has spread, every normalised score lies in [0,1], the minimum maps to 0
   * and the maximum to 1 (and only they do), and the order between any two scores is kept,
   * in both directions.
   */
  lemma NormalizeEndpointsAndOrder(xs: seq<real>, i: int, j: int)
    requires HasSpread(xs) && 0 <= i < |xs| && 0 <= j < |xs|
    ensures Normalize(xs)[i].Val? && 0.0 <= Normalize(xs)[i].v <= 1.0
    ensures Normalize(xs)[i] == Val(0.0) <==> xs[i] == Min(xs)
    ensures Normalize(xs)[i] == Val(1.0) <==> xs[i] == Max(xs)
    ensures xs[i] <= xs[j] <==> Normalize(xs)[i].v <= Normalize(xs)[j].v
  {
    var lo, hi := Min(xs), Max(xs);
    assert Normalize(xs)[i] == Val(Rescale(xs[i], lo, hi));
    assert Normalize(xs)[j] == Val(Rescale(xs[j], lo, hi));
    RescaleFacts(xs[i], xs[j], lo, hi);
  }
}
