// The weighted mean that every producer of a task score uses.
module ScoreContract {
  import opened Sums

  datatype Weighted = Weighted(score: real, weight: real)

  function TotalWeight(pairs: seq<Weighted>): real {
    if pairs == [] then 0.0 else pairs[0].weight + TotalWeight(pairs[1..])
  }

  function Portion(p: Weighted): real {
    p.score * p.weight
  }

  function WeightedSum(pairs: seq<Weighted>): real {
    if pairs == [] then 0.0 else Portion(pairs[0]) + WeightedSum(pairs[1..])
  }

  function WeightedMean(pairs: seq<Weighted>): real {
    if TotalWeight(pairs) <= 0.0 then 0.0 else WeightedSum(pairs) / TotalWeight(pairs)
  }

  predicate HasFractions(pairs: seq<Weighted>) {
    forall p <- pairs :: 0.0 <= p.score <= 1.0 && p.weight >= 0.0
  }

  lemma ProductIsNotNegative(a: real, b: real)
    requires a >= 0.0 && b >= 0.0
    ensures a * b >= 0.0
  {
  }

  lemma Share(p: Weighted)
    requires 0.0 <= p.score <= 1.0 && p.weight >= 0.0
    ensures 0.0 <= Portion(p) <= p.weight
  {
    ProductIsNotNegative(p.score, p.weight);
    ProductIsNotNegative(1.0 - p.score, p.weight);
  }

  lemma LargerShare(low: Weighted, high: Weighted)
    requires low.score <= high.score && low.weight == high.weight && low.weight >= 0.0
    ensures Portion(low) <= Portion(high)
  {
    ProductIsNotNegative(high.score - low.score, low.weight);
  }

  lemma Quotient(a: real, b: real, c: real)
    requires c > 0.0
    ensures a <= b ==> a / c <= b / c
    ensures c / c == 1.0 && 0.0 / c == 0.0
  {
  }

  lemma {:induction false} SumIsAtMostWeight(pairs: seq<Weighted>)
    requires HasFractions(pairs)
    ensures 0.0 <= WeightedSum(pairs) <= TotalWeight(pairs)
  {
    if pairs != [] {
      assert pairs[0] in pairs && forall q <- pairs[1..] :: q in pairs;
      Share(pairs[0]);
      SumIsAtMostWeight(pairs[1..]);
    }
  }

  // With weights that are not negative, a mean of fractions is a fraction.
  lemma MeanIsFraction(pairs: seq<Weighted>)
    requires HasFractions(pairs)
    ensures 0.0 <= WeightedMean(pairs) <= 1.0
  {
    SumIsAtMostWeight(pairs);
    if TotalWeight(pairs) > 0.0 {
      Quotient(WeightedSum(pairs), TotalWeight(pairs), TotalWeight(pairs));
      Quotient(0.0, WeightedSum(pairs), TotalWeight(pairs));
    }
  }

  ghost predicate IsCappedBy(low: seq<Weighted>, high: seq<Weighted>) {
    |low| == |high| &&
    forall i | 0 <= i < |low| ::
      low[i].score <= high[i].score && low[i].weight == high[i].weight && low[i].weight >= 0.0
  }

  lemma {:induction false} CappedSums(low: seq<Weighted>, high: seq<Weighted>)
    requires IsCappedBy(low, high)
    ensures WeightedSum(low) <= WeightedSum(high) && TotalWeight(low) == TotalWeight(high)
  {
    if low != [] {
      LargerShare(low[0], high[0]);
      CappedSums(low[1..], high[1..]);
    }
  }

  // Lowering scores never raises the mean.
  lemma MeanIsMonotone(low: seq<Weighted>, high: seq<Weighted>)
    requires IsCappedBy(low, high)
    ensures WeightedMean(low) <= WeightedMean(high)
  {
    CappedSums(low, high);
    if TotalWeight(low) > 0.0 {
      Quotient(WeightedSum(low), WeightedSum(high), TotalWeight(low));
    }
  }

  lemma Distribute(a: real, b: real, c: real)
    ensures a * (b + c) == a * b + a * c
  {
  }

  lemma Cancel(a: real, b: real)
    requires b > 0.0
    ensures a * b / b == a
  {
  }

  lemma {:induction false} SumOfSame(pairs: seq<Weighted>, score: real)
    requires forall p <- pairs :: p.score == score
    ensures WeightedSum(pairs) == score * TotalWeight(pairs)
  {
    if pairs != [] {
      SumOfSame(pairs[1..], score);
      Distribute(score, pairs[0].weight, TotalWeight(pairs[1..]));
    }
  }

  // Whatever the weights add up to, a score shared by every checkpoint is the mean.
  lemma MeanOfSameScore(pairs: seq<Weighted>, score: real)
    requires forall p <- pairs :: p.score == score
    requires TotalWeight(pairs) > 0.0
    ensures WeightedMean(pairs) == score
  {
    SumOfSame(pairs, score);
    Cancel(score, TotalWeight(pairs));
  }

  // -- what the mean is ----------------------------------------------------------------------------

  function WeightOf(pairs: seq<Weighted>): nat -> real {
    (i: nat) => if i < |pairs| then pairs[i].weight else 0.0
  }

  function ProductOf(pairs: seq<Weighted>): nat -> real {
    (i: nat) => if i < |pairs| then pairs[i].score * pairs[i].weight else 0.0
  }

  lemma {:induction false} WeightIsSum(pairs: seq<Weighted>)
    ensures TotalWeight(pairs) == Sum(|pairs|, WeightOf(pairs))
  {
    if pairs != [] {
      var n := |pairs| - 1;
      WeightIsSum(pairs[1..]);
      FirstSummand(n, WeightOf(pairs));
      SameSums(n, WeightOf(pairs[1..]), (i: nat) => WeightOf(pairs)(i + 1));
    }
  }

  lemma ProductAt(pairs: seq<Weighted>)
    ensures forall i: nat | i < |pairs| :: ProductOf(pairs)(i) == Portion(pairs[i])
  {
  }

  lemma {:induction false} ProductIsSum(pairs: seq<Weighted>)
    ensures WeightedSum(pairs) == Sum(|pairs|, ProductOf(pairs))
  {
    if pairs != [] {
      var n := |pairs| - 1;
      ProductIsSum(pairs[1..]);
      ProductAt(pairs);
      ProductAt(pairs[1..]);
      FirstSummand(n, ProductOf(pairs));
      SameSums(n, ProductOf(pairs[1..]), (i: nat) => ProductOf(pairs)(i + 1));
    }
  }

  // The mean is the sum of the scores, each times its weight, over the sum of the weights; without weight
  // there is nothing to score.
  lemma MeanIsQuotient(pairs: seq<Weighted>)
    ensures var total := Sum(|pairs|, WeightOf(pairs));
            && (total > 0.0 ==> WeightedMean(pairs) == Sum(|pairs|, ProductOf(pairs)) / total)
            && (total <= 0.0 ==> WeightedMean(pairs) == 0.0)
  {
    WeightIsSum(pairs);
    ProductIsSum(pairs);
  }

  lemma RaisedPortion(p: Weighted, d: real)
    ensures Portion(Weighted(p.score + d, p.weight)) - Portion(p) == d * p.weight
  {
  }

  lemma DifferenceOfQuotients(a: real, b: real, c: real, d: real)
    requires c > 0.0 && a - b == d
    ensures a / c - b / c == d / c
  {
  }

  lemma RaisedSum(pairs: seq<Weighted>, raised: seq<Weighted>, k: nat)
    requires k < |pairs| == |raised| && forall i | 0 <= i < |pairs| && i != k :: raised[i] == pairs[i]
    ensures WeightedSum(raised) - WeightedSum(pairs) == Portion(raised[k]) - Portion(pairs[k])
  {
    ProductIsSum(pairs);
    ProductIsSum(raised);
    ProductAt(pairs);
    ProductAt(raised);
    OneChanged(|pairs|, ProductOf(pairs), ProductOf(raised), k);
  }

  // Raising one score raises the mean by the share of its weight.
  lemma RaisedScore(pairs: seq<Weighted>, k: nat, d: real)
    requires k < |pairs| && Sum(|pairs|, WeightOf(pairs)) > 0.0
    ensures var raised := pairs[k := Weighted(pairs[k].score + d, pairs[k].weight)];
            WeightedMean(raised) - WeightedMean(pairs) == d * pairs[k].weight / Sum(|pairs|, WeightOf(pairs))
  {
    var raised := pairs[k := Weighted(pairs[k].score + d, pairs[k].weight)];
    WeightIsSum(pairs);
    WeightIsSum(raised);
    SameSums(|pairs|, WeightOf(pairs), WeightOf(raised));
    RaisedSum(pairs, raised, k);
    RaisedPortion(pairs[k], d);
    DifferenceOfQuotients(WeightedSum(raised), WeightedSum(pairs), TotalWeight(pairs), d * pairs[k].weight);
  }
}
