// The rank metrics written out over ranks and sets, without their loops.
module IrMetricForms {
  import opened Sums
  import opened IrMetrics
  import opened IrMetricLaws

  predicate IsHit(retrieved: seq<string>, relevant: set<string>, norm: string -> string, i: nat) {
    i < |retrieved| && norm(retrieved[i]) in relevant
  }

  // -- the reciprocal rank -------------------------------------------------------------

  lemma {:induction false} FirstHitFrom(flags: seq<bool>, i: nat, n: nat)
    requires i <= n <= |flags| && forall j | i <= j < n :: !flags[j]
    ensures n < |flags| && flags[n] ==> FirstHit(flags, i) == 1.0 / (n + 1) as real
    ensures n == |flags| ==> FirstHit(flags, i) == 0.0
    decreases n - i
  {
    if i < n {
      FirstHitFrom(flags, i + 1, n);
    }
  }

  // The first hit at rank `n + 1`, counting from 1, scores its reciprocal; without a hit there is nothing.
  lemma ReciprocalRankIs(retrieved: seq<string>, relevant: set<string>, norm: string -> string, n: nat)
    requires n <= |retrieved| && forall i: nat | i < n :: !IsHit(retrieved, relevant, norm, i)
    ensures IsHit(retrieved, relevant, norm, n) ==> Mrr(retrieved, relevant, norm) == 1.0 / (n + 1) as real
    ensures n == |retrieved| ==> Mrr(retrieved, relevant, norm) == 0.0
  {
    var flags := Flags(retrieved, relevant, norm);
    assert forall j: nat | j < n :: flags[j] == IsHit(retrieved, relevant, norm, j);
    FirstHitFrom(flags, 0, n);
  }

  // -- precision and recall ------------------------------------------------------------

  // The first `n` ranks that hold a relevant path.
  ghost function HitRanks(retrieved: seq<string>, relevant: set<string>, norm: string -> string, n: nat): set<nat> {
    set i: nat | i < n && IsHit(retrieved, relevant, norm, i)
  }

  lemma {:induction false} HitsAreRanks(retrieved: seq<string>, relevant: set<string>, norm: string -> string, n: nat)
    requires n <= |retrieved|
    ensures Hits(Flags(retrieved, relevant, norm), n) == |HitRanks(retrieved, relevant, norm, n)|
  {
    if n == 0 {
      assert HitRanks(retrieved, relevant, norm, 0) == {};
    } else {
      HitsAreRanks(retrieved, relevant, norm, n - 1);
      assert HitRanks(retrieved, relevant, norm, n)
          == HitRanks(retrieved, relevant, norm, n - 1)
             + (if IsHit(retrieved, relevant, norm, n - 1) then {n - 1} else {});
    }
  }

  // Precision at a cutoff is the number of hits up to it, over the cutoff itself.
  lemma PrecisionIs(retrieved: seq<string>, relevant: set<string>, k: nat, norm: string -> string)
    requires k > 0
    ensures PrecisionAt(retrieved, relevant, k, norm) == |HitRanks(retrieved, relevant, norm, k)| as real / k as real
  {
    var top := Take(retrieved, k);
    TakeIsPrefix(retrieved, k);
    HitsOfPrefix(retrieved, relevant, norm, |top|, |top|);
    HitsAreRanks(retrieved, relevant, norm, |top|);
    assert HitRanks(retrieved, relevant, norm, k) == HitRanks(retrieved, relevant, norm, |top|);
    if top == [] {
      assert HitRanks(retrieved, relevant, norm, 0) == {};
    }
  }

  // What is found of a list is what is found of its parts; a path finds its normal form where that is relevant.
  lemma FoundOfConcat(a: seq<string>, b: seq<string>, relevant: set<string>, norm: string -> string)
    ensures Found(a + b, relevant, norm) == Found(a, relevant, norm) + Found(b, relevant, norm)
    ensures Found([], relevant, norm) == {}
  {
    assert forall f :: f in a + b <==> f in a || f in b;
  }

  lemma FoundByOne(f: string, relevant: set<string>, norm: string -> string)
    ensures Found([f], relevant, norm) == if norm(f) in relevant then {norm(f)} else {}
  {
    assert f in [f];
  }

  // -- discounted gain -----------------------------------------------------------------

  function GainAt(retrieved: seq<string>, relevant: set<string>, norm: string -> string,
                  disc: nat -> real): nat -> real {
    (i: nat) => if IsHit(retrieved, relevant, norm, i) then disc(i) else 0.0
  }

  lemma GainIs(retrieved: seq<string>, relevant: set<string>, norm: string -> string, disc: nat -> real, i: nat)
    ensures GainAt(retrieved, relevant, norm, disc)(i)
         == if IsHit(retrieved, relevant, norm, i) then disc(i) else 0.0
  {
  }

  lemma {:induction false} GainIsSum(retrieved: seq<string>, relevant: set<string>, norm: string -> string,
                                     disc: nat -> real, n: nat)
    requires n <= |retrieved|
    ensures Dcg(Flags(retrieved, relevant, norm), disc, n) == Sum(n, GainAt(retrieved, relevant, norm, disc))
  {
    if n > 0 {
      GainIsSum(retrieved, relevant, norm, disc, n - 1);
      GainIs(retrieved, relevant, norm, disc, n - 1);
    }
  }

  lemma {:induction false} IdealIsSum(disc: nat -> real, n: nat)
    ensures Ideal(disc, n) == Sum(n, disc)
  {
    if n > 0 {
      IdealIsSum(disc, n - 1);
    }
  }

  // The gain of the hits among the first `k` over that of as many hits as there could be, all at the front.
  lemma NdcgIs(retrieved: seq<string>, relevant: set<string>, k: nat, norm: string -> string, disc: nat -> real)
    requires k > 0 && relevant != {}
    ensures var top := if k < |retrieved| then k else |retrieved|;
            var most := if k < |relevant| then k else |relevant|;
            var gain, best := Sum(top, GainAt(retrieved, relevant, norm, disc)), Sum(most, disc);
            NdcgAt(retrieved, relevant, k, norm, disc) == if best == 0.0 then 0.0 else gain / best
  {
    var top := Take(retrieved, k);
    TakeIsPrefix(retrieved, k);
    GainIsSum(top, relevant, norm, disc, |top|);
    forall i: nat | i < |top|
      ensures GainAt(top, relevant, norm, disc)(i) == GainAt(retrieved, relevant, norm, disc)(i)
    {
      GainIs(top, relevant, norm, disc, i);
      GainIs(retrieved, relevant, norm, disc, i);
    }
    SameSums(|top|, GainAt(top, relevant, norm, disc), GainAt(retrieved, relevant, norm, disc));
    IdealIsSum(disc, Min(k, |relevant|));
  }

  // -- average precision ---------------------------------------------------------------

  // The precision at a rank that holds a relevant path.
  ghost function PrecisionAtHit(retrieved: seq<string>, relevant: set<string>, norm: string -> string): nat -> real {
    (i: nat) =>
      if IsHit(retrieved, relevant, norm, i) then |HitRanks(retrieved, relevant, norm, i + 1)| as real / (i + 1) as real
      else 0.0
  }

  lemma {:induction false} PrecisionsAreSum(retrieved: seq<string>, relevant: set<string>, norm: string -> string,
                                            n: nat)
    requires n <= |retrieved|
    ensures PrecisionSum(Flags(retrieved, relevant, norm), n)
         == Sum(n, PrecisionAtHit(retrieved, relevant, norm))
  {
    if n > 0 {
      PrecisionsAreSum(retrieved, relevant, norm, n - 1);
      HitsAreRanks(retrieved, relevant, norm, n);
    }
  }

  lemma {:induction false} NoHitNoPrecision(flags: seq<bool>, n: nat)
    requires n <= |flags| && Hits(flags, n) == 0
    ensures PrecisionSum(flags, n) == 0.0
  {
    if n > 0 {
      NoHitNoPrecision(flags, n - 1);
    }
  }

  lemma NothingOf(n: real)
    requires n > 0.0
    ensures 0.0 / n == 0.0
  {
  }

  // The precisions at the hits add up to the average times the number of relevant paths, found or not.
  lemma AveragePrecisionIs(retrieved: seq<string>, relevant: set<string>, norm: string -> string)
    requires relevant != {}
    ensures AveragePrecision(retrieved, relevant, norm)
         == Sum(|retrieved|, PrecisionAtHit(retrieved, relevant, norm)) / |relevant| as real
  {
    var flags := Flags(retrieved, relevant, norm);
    PrecisionsAreSum(retrieved, relevant, norm, |retrieved|);
    if Hits(flags, |flags|) == 0 {
      NoHitNoPrecision(flags, |flags|);
      NothingOf(|relevant| as real);
    }
  }

  // -- where there is nothing to count -----------------------------------------------------

  lemma {:induction false} NothingRelevantNoHits(retrieved: seq<string>, norm: string -> string, n: nat)
    requires n <= |retrieved|
    ensures Hits(Flags(retrieved, {}, norm), n) == 0
  {
    if n > 0 {
      NothingRelevantNoHits(retrieved, norm, n - 1);
    }
  }

  // With nothing to find, recall and average precision are 1, and precision, F1, nDCG and the reciprocal rank 0.
  lemma NothingToFind(retrieved: seq<string>, k: int, norm: string -> string, disc: nat -> real)
    ensures RecallAt(retrieved, {}, k, norm) == FileRecall(retrieved, {}, norm) == 1.0
    ensures AveragePrecision(retrieved, {}, norm) == 1.0
    ensures PrecisionAt(retrieved, {}, k, norm) == F1At(retrieved, {}, k, norm) == 0.0
    ensures NdcgAt(retrieved, {}, k, norm, disc) == Mrr(retrieved, {}, norm) == 0.0
  {
    var top := Take(retrieved, k);
    NothingRelevantNoHits(top, norm, |top|);
    if k > 0 {
      NothingOf(k as real);
    }
    NothingOf(1.0);
    ReciprocalRankIs(retrieved, {}, norm, |retrieved|);
  }

  // With nothing retrieved, everything is 0; so are precision and nDCG at a cutoff that is not positive.
  lemma NothingRetrieved(retrieved: seq<string>, relevant: set<string>, k: int, norm: string -> string,
                         disc: nat -> real)
    requires relevant != {}
    ensures k <= 0 ==> PrecisionAt(retrieved, relevant, k, norm) == NdcgAt(retrieved, relevant, k, norm, disc) == 0.0
    ensures RecallAt([], relevant, k, norm) == FileRecall([], relevant, norm) == 0.0
    ensures PrecisionAt([], relevant, k, norm) == NdcgAt([], relevant, k, norm, disc) == 0.0
    ensures AveragePrecision([], relevant, norm) == Mrr([], relevant, norm) == F1At([], relevant, k, norm) == 0.0
  {
    assert Found([], relevant, norm) == {};
    NothingOf(|relevant| as real);
    var ideal := Ideal(disc, if k < 0 then 0 else Min(k, |relevant|));
    if ideal != 0.0 {
      NothingOfAny(ideal);
    }
  }

  lemma NothingOfAny(n: real)
    requires n != 0.0
    ensures 0.0 / n == 0.0
  {
  }

  // Recall at a cutoff is the recall of the files up to it; a negative cutoff counts from the end.
  lemma RecallIs(retrieved: seq<string>, relevant: set<string>, k: int, norm: string -> string)
    requires relevant != {}
    ensures var n := if k >= |retrieved| then |retrieved| else if k >= 0 then k
                     else if |retrieved| + k > 0 then |retrieved| + k else 0;
            RecallAt(retrieved, relevant, k, norm)
            == |Found(retrieved[..n], relevant, norm)| as real / |relevant| as real
  {
    TakeIsPrefix(retrieved, k);
    if Take(retrieved, k) == [] {
      assert Found([], relevant, norm) == {};
      NothingOf(|relevant| as real);
    }
  }
}
