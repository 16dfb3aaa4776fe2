/** `final_scores` (projectAttempt1.py lines 153-167): the score of a row is
    the weighted sum of its ten scaled features with equal weights, and the
    table is sorted by score, highest first. */
module Scoring {
  import opened Wrappers
  import opened Table
  import opened Normalise

  /** `[1/n] * n`: n equal weights. */
  function Uniform(n: nat): (ws: seq<real>)
    requires n > 0
    ensures |ws| == n
  {
    seq(n, i => 1.0 / n as real)
  }

  /** `np.array([1/len(score_features)] * len(score_features))`. */
  function Weights(): seq<real> {
    Uniform(FeatureCount)
  }

  function Dot(xs: seq<real>, ws: seq<real>): real
    requires |xs| == |ws|
  {
    if xs == [] then 0.0 else xs[0] * ws[0] + Dot(xs[1..], ws[1..])
  }

  /** n equal weights of 1/n add up to one. */
  lemma UniformSum(n: nat)
    requires n > 0
    ensures Sum(Uniform(n)) == 1.0
  {
    SumConstant(Uniform(n), 1.0 / n as real);
  }

  lemma {:induction false} SumConstant(ws: seq<real>, c: real)
    requires forall i | 0 <= i < |ws| :: ws[i] == c
    ensures Sum(ws) == |ws| as real * c
  {
    if ws != [] {
      SumConstant(ws[1..], c);
    }
  }

  /** Ten equal, non-negative weights adding up to one. */
  lemma WeightsUniform()
    ensures |Weights()| == 10
    ensures forall i | 0 <= i < |Weights()| :: Weights()[i] == 0.1
    ensures Sum(Weights()) == 1.0
  {
    UniformSum(FeatureCount);
  }

  /** With values in [0, 1] and non-negative weights, the weighted sum lies
      between 0 and the sum of the weights. */
  lemma {:induction false} DotBounds(xs: seq<real>, ws: seq<real>)
    requires |xs| == |ws|
    requires forall i | 0 <= i < |xs| :: 0.0 <= xs[i] <= 1.0
    requires forall i | 0 <= i < |ws| :: 0.0 <= ws[i]
    ensures 0.0 <= Dot(xs, ws) <= Sum(ws)
  {
    if xs != [] {
      DotBounds(xs[1..], ws[1..]);
      assert 0.0 <= xs[0] * ws[0] <= ws[0] by {
        assert xs[0] * ws[0] <= 1.0 * ws[0];
      }
    }
  }

  predicate AllPresent(f: seq<Option<real>>) {
    forall j | 0 <= j < |f| :: f[j].Some?
  }

  function Values(f: seq<Option<real>>): (v: seq<real>)
    requires AllPresent(f)
    ensures |v| == |f|
  {
    seq(|f|, j requires 0 <= j < |f| => f[j].value)
  }

  /** `data_scaled[score_features].dot(weights)`: NaN when a feature is. */
  function Score(r: Row): Option<real> {
    if AllPresent(Features(r)) then Some(Dot(Values(Features(r)), Weights())) else None
  }

  /** A score is present exactly when every feature is, and a row whose
      features lie in [0, 1] scores in [0, 1]. */
  lemma ScoreBounds(r: Row)
    ensures Score(r).Some? <==> forall j | 0 <= j < FeatureCount :: Features(r)[j].Some?
    ensures (forall j | 0 <= j < FeatureCount :: Features(r)[j].Some? && 0.0 <= Features(r)[j].value <= 1.0)
      ==> 0.0 <= Score(r).value <= 1.0
  {
    WeightsUniform();
    var f := Features(r);
    if forall j | 0 <= j < FeatureCount :: f[j].Some? && 0.0 <= f[j].value <= 1.0 {
      DotBounds(Values(f), Weights());
    }
  }

  /** Every row that `scale_data` returns has a score in [0, 1]. */
  lemma ScaledRowsScoreInUnitInterval(target: seq<Row>, source: seq<Row>)
    requires |target| == |source|
    ensures forall r | r in DropNa(ScaleFeaturesFrom(target, source)) :: Score(r).Some? && 0.0 <= Score(r).value <= 1.0
  {
    var scaled := ScaleFeaturesFrom(target, source);
    ScaledRowsHaveFeatures(target, source);
    forall r | r in DropNa(scaled)
      ensures Score(r).Some? && 0.0 <= Score(r).value <= 1.0
    {
      var i :| 0 <= i < |scaled| && scaled[i] == r;
      forall j | 0 <= j < FeatureCount
        ensures 0.0 <= Features(r)[j].value <= 1.0
      {
        ScaledFeatureBounds(target, source, i, j);
      }
      ScoreBounds(r);
    }
  }

  /* ---------------------------------------------------------------- */
  /* Ranking                                                          */

  datatype Ranked = Ranked(row: Row, score: Option<real>)

  /** a may come before b in `sort_values(by='Score', ascending=False)`:
      higher scores first, NaN last. */
  predicate Before(a: Ranked, b: Ranked) {
    match (a.score, b.score)
    case (_, None) => true
    case (None, Some(_)) => false
    case (Some(x), Some(y)) => x >= y
  }

  /** The table with its Score column (line 164). */
  function Scored(data: seq<Row>): (s: seq<Ranked>)
    ensures |s| == |data|
  {
    seq(|data|, i requires 0 <= i < |data| => Ranked(data[i], Score(data[i])))
  }

  /** Sorts by score, highest first, in place (line 165). The order among
      equal scores is not specified. */
  method SortByScore(a: array<Ranked>)
    modifies a
    ensures forall i, j | 0 <= i < j < a.Length :: Before(a[i], a[j])
    ensures multiset(a[..]) == multiset(old(a[..]))
  {
    for i := 0 to a.Length
      invariant forall k, l | 0 <= k < l < i :: Before(a[k], a[l])
      invariant multiset(a[..]) == multiset(old(a[..]))
    {
      var j := i;
      while j > 0 && !Before(a[j - 1], a[j])
        invariant 0 <= j <= i
        invariant forall k, l | 0 <= k < l <= i && l != j :: Before(a[k], a[l])
        invariant multiset(a[..]) == multiset(old(a[..]))
      {
        a[j - 1], a[j] := a[j], a[j - 1];
        j := j - 1;
      }
    }
  }

  /** `final_scores`: every row once, with its score, highest first. */
  method FinalScores(data: seq<Row>) returns (ranked: array<Ranked>)
    ensures multiset(ranked[..]) == multiset(Scored(data))
    ensures forall i, j | 0 <= i < j < ranked.Length :: Before(ranked[i], ranked[j])
    ensures forall i | 0 <= i < ranked.Length :: ranked[i].score == Score(ranked[i].row)
  {
    ranked := new Ranked[|data|](i requires 0 <= i < |data| => Ranked(data[i], Score(data[i])));
    assert ranked[..] == Scored(data);
    SortByScore(ranked);
    forall i | 0 <= i < ranked.Length
      ensures ranked[i].score == Score(ranked[i].row)
    {
      assert ranked[i] in multiset(Scored(data));
    }
  }
}
