// Bounds and identities of the rank metrics. Most need the retrieved paths to be distinct once
// normalized; without that a path could be counted at several ranks.
module IrMetricLaws {
  import opened IrMetrics

  ghost predicate DistinctUnder(retrieved: seq<string>, norm: string -> string) {
    forall i, j | 0 <= i < j < |retrieved| :: norm(retrieved[i]) != norm(retrieved[j])
  }

  ghost predicate IsDiscount(disc: nat -> real) {
    (forall i: nat :: disc(i) > 0.0) && (forall i: nat, j: nat | i < j :: disc(i) > disc(j))
  }

  // -- hits by rank are hits by relevant path ------------------------------------------

  lemma TakeIsPrefix<T>(s: seq<T>, k: int)
    ensures |Take(s, k)| <= |s| && Take(s, k) == s[..|Take(s, k)|]
    ensures k >= 0 ==> |Take(s, k)| == Min(k, |s|)
    ensures k < 0 ==> |Take(s, k)| == if |s| + k > 0 then |s| + k else 0
  {
  }

  lemma {:induction false} HitsOfPrefix(retrieved: seq<string>, relevant: set<string>, norm: string -> string, m: nat,
                                        n: nat)
    requires n <= m <= |retrieved|
    ensures Hits(Flags(retrieved[..m], relevant, norm), n) == Hits(Flags(retrieved, relevant, norm), n)
  {
    if n > 0 {
      HitsOfPrefix(retrieved, relevant, norm, m, n - 1);
    }
  }

  // Counting over ranks and counting over the relevant set give the same number.
  lemma {:induction false} HitsAreFound(retrieved: seq<string>, relevant: set<string>, norm: string -> string, n: nat)
    requires n <= |retrieved| && DistinctUnder(retrieved, norm)
    ensures Hits(Flags(retrieved, relevant, norm), n) == |Found(retrieved[..n], relevant, norm)|
  {
    if n == 0 {
      assert Found(retrieved[..0], relevant, norm) == {};
    } else {
      HitsAreFound(retrieved, relevant, norm, n - 1);
      FoundNext(retrieved, relevant, norm, n);
      LastIsNew(retrieved, relevant, norm, n);
    }
  }

  lemma LastIsNew(retrieved: seq<string>, relevant: set<string>, norm: string -> string, n: nat)
    requires 0 < n <= |retrieved| && DistinctUnder(retrieved, norm)
    ensures norm(retrieved[n - 1]) !in Found(retrieved[..n - 1], relevant, norm)
  {
    forall g <- retrieved[..n - 1]
      ensures norm(g) != norm(retrieved[n - 1])
    {
      var i :| 0 <= i < n - 1 && retrieved[i] == g;
    }
  }

  lemma FoundNext(retrieved: seq<string>, relevant: set<string>, norm: string -> string, n: nat)
    requires 0 < n <= |retrieved|
    ensures Found(retrieved[..n], relevant, norm)
         == Found(retrieved[..n - 1], relevant, norm)
            + (if norm(retrieved[n - 1]) in relevant then {norm(retrieved[n - 1])} else {})
  {
    assert retrieved[..n] == retrieved[..n - 1] + [retrieved[n - 1]];
    assert forall g :: g in retrieved[..n] <==> g in retrieved[..n - 1] || g == retrieved[n - 1];
  }

  lemma FoundIsRelevant(retrieved: seq<string>, relevant: set<string>, norm: string -> string)
    ensures |Found(retrieved, relevant, norm)| <= |relevant|
  {
    SubsetIsSmaller(Found(retrieved, relevant, norm), relevant);
  }

  lemma {:induction false} SubsetIsSmaller<T>(a: set<T>, b: set<T>)
    requires a <= b
    ensures |a| <= |b|
  {
    assert b == a + (b - a);
  }

  lemma {:induction false} HitsAtMost(flags: seq<bool>, n: nat)
    requires n <= |flags|
    ensures Hits(flags, n) <= n
  {
    if n > 0 {
      HitsAtMost(flags, n - 1);
    }
  }

  // -- nDCG ------------------------------------------------------------------------------

  lemma {:induction false} IdealGrows(disc: nat -> real, a: nat, b: nat)
    requires IsDiscount(disc) && a <= b
    ensures Ideal(disc, a) <= Ideal(disc, b)
    ensures a < b ==> Ideal(disc, a) < Ideal(disc, b)
  {
    if a < b {
      IdealGrows(disc, a, b - 1);
    }
  }

  // The j-th hit stands at rank j or later, so moving every hit to the front can only gain, and
  // gains something unless they are there already.
  lemma {:induction false} DcgAtMostIdeal(flags: seq<bool>, disc: nat -> real, n: nat)
    requires IsDiscount(disc) && n <= |flags|
    ensures 0.0 <= Dcg(flags, disc, n) <= Ideal(disc, Hits(flags, n))
    ensures Hits(flags, n) <= n
    ensures Dcg(flags, disc, n) == Ideal(disc, Hits(flags, n)) <==> forall i | 0 <= i < Hits(flags, n) :: flags[i]
  {
    if n > 0 {
      DcgAtMostIdeal(flags, disc, n - 1);
      var h := Hits(flags, n - 1);
      assert disc(n - 1) > 0.0 && (h < n - 1 ==> disc(h) > disc(n - 1));
      if flags[n - 1] && forall i | 0 <= i < h :: flags[i] {
        if h < n - 1 {
          NextIsNoHit(flags, n - 1, h);
        }
      }
    }
  }

  // If the first `h` ranks are all the hits among the first `n`, the next rank is none.
  lemma {:induction false} NextIsNoHit(flags: seq<bool>, n: nat, h: nat)
    requires h < n <= |flags| && Hits(flags, n) == h && forall i | 0 <= i < h :: flags[i]
    ensures !flags[h]
  {
    HitsOfFullPrefix(flags, h);
    if flags[h] {
      HitsGrow(flags, h + 1, n);
    }
  }

  lemma {:induction false} HitsOfFullPrefix(flags: seq<bool>, h: nat)
    requires h <= |flags| && forall i | 0 <= i < h :: flags[i]
    ensures Hits(flags, h) == h
  {
    if h > 0 {
      HitsOfFullPrefix(flags, h - 1);
    }
  }

  lemma {:induction false} HitsGrow(flags: seq<bool>, m: nat, n: nat)
    requires m <= n <= |flags|
    ensures Hits(flags, m) <= Hits(flags, n)
  {
    if m < n {
      HitsGrow(flags, m, n - 1);
    }
  }

  lemma TopHits(retrieved: seq<string>, relevant: set<string>, k: nat, norm: string -> string)
    requires DistinctUnder(retrieved, norm)
    ensures var top := Take(retrieved, k);
            Hits(Flags(top, relevant, norm), |top|) == |Found(top, relevant, norm)| <= Min(k, |relevant|)
  {
    var top := Take(retrieved, k);
    TakeIsPrefix(retrieved, k);
    HitsAreFound(retrieved, relevant, norm, |top|);
    HitsOfPrefix(retrieved, relevant, norm, |top|, |top|);
    HitsAtMost(Flags(top, relevant, norm), |top|);
    FoundIsRelevant(top, relevant, norm);
  }

  // The first min(k, |relevant|) ranks exist and are all relevant.
  ghost predicate IsPerfectTop(retrieved: seq<string>, relevant: set<string>, k: int, norm: string -> string) {
    && 0 < k && relevant != {} && Min(k, |relevant|) <= |retrieved|
    && forall i | 0 <= i < Min(k, |relevant|) :: norm(retrieved[i]) in relevant
  }

  // nDCG is a fraction, and it is 1 exactly for a perfect top of the ranking.
  lemma NdcgIsAFraction(retrieved: seq<string>, relevant: set<string>, k: int, norm: string -> string,
                        disc: nat -> real)
    requires IsDiscount(disc) && DistinctUnder(retrieved, norm)
    ensures 0.0 <= NdcgAt(retrieved, relevant, k, norm, disc) <= 1.0
    ensures NdcgAt(retrieved, relevant, k, norm, disc) == 1.0 <==> IsPerfectTop(retrieved, relevant, k, norm)
  {
    if k > 0 && relevant != {} {
      var top := Take(retrieved, k);
      var flags := Flags(top, relevant, norm);
      var h, ideal := Hits(flags, |top|), Min(k, |relevant|);
      TakeIsPrefix(retrieved, k);
      TopHits(retrieved, relevant, k, norm);
      DcgAtMostIdeal(flags, disc, |top|);
      IdealGrows(disc, 0, ideal);
      IdealGrows(disc, h, ideal);
      FractionOf(Dcg(flags, disc, |top|), Ideal(disc, ideal));
      if IsPerfectTop(retrieved, relevant, k, norm) {
        HitsOfFullPrefix(flags, ideal);
        HitsGrow(flags, ideal, |top|);
      }
      if h == ideal && forall i | 0 <= i < h :: flags[i] {
        assert forall i | 0 <= i < ideal :: flags[i] == (norm(retrieved[i]) in relevant);
      }
    }
  }

  lemma FractionOf(a: real, b: real)
    requires 0.0 <= a <= b && b > 0.0
    ensures 0.0 <= a / b <= 1.0 && (a / b == 1.0 <==> a == b)
  {
  }

  lemma MoreThanWhole(a: real, b: real)
    requires a > b > 0.0
    ensures a / b > 1.0
  {
  }

  // -- recall ----------------------------------------------------------------------------

  lemma FoundGrows(a: seq<string>, b: seq<string>, relevant: set<string>, norm: string -> string)
    requires a <= b
    ensures |Found(a, relevant, norm)| <= |Found(b, relevant, norm)|
  {
    assert forall f <- a :: f in b;
    SubsetIsSmaller(Found(a, relevant, norm), Found(b, relevant, norm));
  }

  // A larger cutoff never lowers recall, and one that reaches the end gives the recall of files.
  lemma RecallGrows(retrieved: seq<string>, relevant: set<string>, j: nat, k: nat, norm: string -> string)
    requires j <= k
    ensures RecallAt(retrieved, relevant, j, norm) <= RecallAt(retrieved, relevant, k, norm)
    ensures k >= |retrieved| ==> RecallAt(retrieved, relevant, k, norm) == FileRecall(retrieved, relevant, norm)
  {
    TakeIsPrefix(retrieved, j);
    TakeIsPrefix(retrieved, k);
    if relevant != {} {
      FoundGrows(Take(retrieved, j), Take(retrieved, k), relevant, norm);
      Quotients(|Found(Take(retrieved, j), relevant, norm)| as real,
                |Found(Take(retrieved, k), relevant, norm)| as real,
                |relevant| as real);
      if retrieved == [] {
        assert Found([], relevant, norm) == {};
      }
    }
  }

  lemma Quotients(a: real, b: real, n: real)
    requires 0.0 <= a <= b && n > 0.0
    ensures 0.0 <= a / n <= b / n
  {
  }

  // -- F1 --------------------------------------------------------------------------------

  lemma HarmonicMean(h: real, k: real, n: real)
    requires h > 0.0 && k > 0.0 && n > 0.0
    ensures h / k + h / n > 0.0
    ensures 2.0 * (h / k) * (h / n) / (h / k + h / n) == 2.0 * h / (k + n)
  {
    var p, r := h / k, h / n;
    assert p * k == h && r * n == h && p > 0.0 && r > 0.0;
    assert (p + r) * h == p * r * n + p * r * k by {
      assert p * h == p * (r * n) && r * h == r * (p * k);
    }
    var f := 2.0 * p * r / (p + r);
    assert f * (p + r) == 2.0 * p * r;
    CancelHarmonic(f, p, r, h, k, n);
  }

  lemma CancelHarmonic(f: real, p: real, r: real, h: real, k: real, n: real)
    requires p > 0.0 && r > 0.0 && h > 0.0 && k > 0.0 && n > 0.0
    requires f * (p + r) == 2.0 * p * r && (p + r) * h == p * r * n + p * r * k
    ensures f == 2.0 * h / (k + n)
  {
    var q := p * r;
    assert q > 0.0;
    assert f * (p + r) * h == 2.0 * q * h;
    assert f * ((p + r) * h) == f * (q * (n + k));
    assert q * (f * (n + k)) == q * (2.0 * h);
    assert f * (n + k) == 2.0 * h;
  }

  lemma Dice(h: real, k: real, n: real, p: real, r: real)
    requires h >= 0.0 && k > 0.0 && n > 0.0 && p == h / k && r == h / n
    ensures (if p + r == 0.0 then 0.0 else 2.0 * p * r / (p + r)) == 2.0 * h / (k + n)
  {
    if h > 0.0 {
      HarmonicMean(h, k, n);
    }
  }

  lemma PrecisionAndRecall(retrieved: seq<string>, relevant: set<string>, k: int, norm: string -> string)
    requires DistinctUnder(retrieved, norm) && relevant != {} && k > 0
    ensures var h := |Found(Take(retrieved, k), relevant, norm)| as real;
            && PrecisionAt(retrieved, relevant, k, norm) == h / k as real
            && RecallAt(retrieved, relevant, k, norm) == h / |relevant| as real
  {
    TopHits(retrieved, relevant, k, norm);
    if Take(retrieved, k) == [] {
      assert Found([], relevant, norm) == {};
    }
  }

  // With `h` relevant paths among the first `k`, F1 is 2h / (k + |relevant|).
  lemma F1IsDice(retrieved: seq<string>, relevant: set<string>, k: int, norm: string -> string)
    requires DistinctUnder(retrieved, norm) && relevant != {} && k > 0
    ensures F1At(retrieved, relevant, k, norm)
         == 2.0 * |Found(Take(retrieved, k), relevant, norm)| as real / (k as real + |relevant| as real)
  {
    PrecisionAndRecall(retrieved, relevant, k, norm);
    Dice(|Found(Take(retrieved, k), relevant, norm)| as real, k as real, |relevant| as real,
         PrecisionAt(retrieved, relevant, k, norm), RecallAt(retrieved, relevant, k, norm));
  }

  // -- average precision -------------------------------------------------------------------

  lemma {:induction false} PrecisionSumBounds(flags: seq<bool>, n: nat)
    requires n <= |flags|
    ensures 0.0 <= PrecisionSum(flags, n) <= Hits(flags, n) as real
  {
    if n > 0 {
      PrecisionSumBounds(flags, n - 1);
      HitsAtMost(flags, n);
      FractionOf(Hits(flags, n) as real, n as real);
    }
  }

  lemma {:induction false} FirstHitInSum(flags: seq<bool>, n: nat, m: nat)
    requires n <= m <= |flags| && Hits(flags, n) == 0 && m == |flags|
    ensures FirstHit(flags, n) <= PrecisionSum(flags, m)
    decreases m - n
  {
    if n == m {
      PrecisionSumBounds(flags, m);
    } else if flags[n] {
      PrecisionSumGrows(flags, n + 1, m);
      PrecisionSumBounds(flags, n);
    } else {
      FirstHitInSum(flags, n + 1, m);
    }
  }

  lemma {:induction false} PrecisionSumGrows(flags: seq<bool>, n: nat, m: nat)
    requires n <= m <= |flags|
    ensures PrecisionSum(flags, n) <= PrecisionSum(flags, m)
  {
    if n < m {
      PrecisionSumGrows(flags, n, m - 1);
      HitsAtMost(flags, m);
      FractionOf(Hits(flags, m) as real, m as real);
    }
  }

  // Average precision lies between the first hit's share and the recall of files.
  lemma AveragePrecisionIsBetween(retrieved: seq<string>, relevant: set<string>, norm: string -> string)
    requires relevant != {} && DistinctUnder(retrieved, norm)
    ensures Mrr(retrieved, relevant, norm) / |relevant| as real <= AveragePrecision(retrieved, relevant, norm)
    ensures AveragePrecision(retrieved, relevant, norm) <= FileRecall(retrieved, relevant, norm) <= 1.0
  {
    var flags := Flags(retrieved, relevant, norm);
    var n, size := |flags|, |relevant| as real;
    assert retrieved[..|retrieved|] == retrieved;
    HitsAreFound(retrieved, relevant, norm, |retrieved|);
    FoundIsRelevant(retrieved, relevant, norm);
    PrecisionSumBounds(flags, n);
    FirstHitInSum(flags, 0, n);
    FirstHitIsPositive(flags, 0);
    Quotients(FirstHit(flags, 0), PrecisionSum(flags, n), size);
    Quotients(PrecisionSum(flags, n), Hits(flags, n) as real, size);
    FractionOf(Hits(flags, n) as real, size);
  }

  lemma {:induction false} FirstHitIsPositive(flags: seq<bool>, n: nat)
    requires n <= |flags|
    ensures FirstHit(flags, n) >= 0.0
    decreases |flags| - n
  {
    if n < |flags| && !flags[n] {
      FirstHitIsPositive(flags, n + 1);
    }
  }

  // -- moving a relevant path up -----------------------------------------------------------

  function Swapped<T>(s: seq<T>, i: nat): seq<T>
    requires i + 1 < |s|
  {
    s[i := s[i + 1]][i + 1 := s[i]]
  }

  lemma {:induction false} SwapKeepsHits(f: seq<bool>, i: nat, n: nat)
    requires i + 1 < |f| && !f[i] && f[i + 1] && n <= |f|
    ensures Hits(Swapped(f, i), n) == Hits(f, n) + (if n == i + 1 then 1 else 0)
  {
    if n > 0 {
      SwapKeepsHits(f, i, n - 1);
    }
  }

  lemma {:induction false} SwapRaisesDcg(f: seq<bool>, disc: nat -> real, i: nat, n: nat)
    requires IsDiscount(disc) && i + 1 < |f| && !f[i] && f[i + 1] && n <= |f|
    ensures n <= i ==> Dcg(Swapped(f, i), disc, n) == Dcg(f, disc, n)
    ensures n == i + 1 ==> Dcg(Swapped(f, i), disc, n) == Dcg(f, disc, n) + disc(i)
    ensures n > i + 1 ==> Dcg(Swapped(f, i), disc, n) == Dcg(f, disc, n) + disc(i) - disc(i + 1)
  {
    if n > 0 {
      SwapRaisesDcg(f, disc, i, n - 1);
    }
  }

  lemma {:induction false} SwapRaisesPrecisions(f: seq<bool>, i: nat, n: nat)
    requires i + 1 < |f| && !f[i] && f[i + 1] && n <= |f|
    ensures n <= i ==> PrecisionSum(Swapped(f, i), n) == PrecisionSum(f, n)
    ensures n == i + 1 ==>
              PrecisionSum(Swapped(f, i), n)
              == PrecisionSum(f, n) + (Hits(f, i) + 1) as real / (i + 1) as real
    ensures n > i + 1 ==> PrecisionSum(Swapped(f, i), n) > PrecisionSum(f, n)
  {
    if n > 0 {
      SwapRaisesPrecisions(f, i, n - 1);
      SwapKeepsHits(f, i, n);
      SwapKeepsHits(f, i, n - 1);
      if n == i + 2 {
        EarlierIsMore(Hits(f, i) + 1, i + 1);
      }
    }
  }

  lemma EarlierIsMore(h: nat, n: nat)
    requires h > 0 && n > 0
    ensures h as real / n as real > h as real / (n + 1) as real
  {
    var x, y := h as real / n as real, h as real / (n + 1) as real;
    assert x * n as real == h as real && y * (n + 1) as real == h as real;
    assert y > 0.0;
    assert (x - y) * n as real == y;
  }

  lemma {:induction false} SwapRaisesFirstHit(f: seq<bool>, i: nat, n: nat)
    requires i + 1 < |f| && !f[i] && f[i + 1] && n <= i
    ensures FirstHit(Swapped(f, i), n) >= FirstHit(f, n)
    decreases i - n
  {
    if n < i {
      SwapRaisesFirstHit(f, i, n + 1);
    } else {
      assert FirstHit(f, i) == FirstHit(f, i + 1) == 1.0 / (i + 2) as real;
      EarlierIsMore(1, i + 1);
    }
  }

  lemma {:induction false} DcgOfPrefix(retrieved: seq<string>, relevant: set<string>, norm: string -> string,
                                          disc: nat -> real, m: nat, n: nat)
    requires n <= m <= |retrieved|
    ensures Dcg(Flags(retrieved[..m], relevant, norm), disc, n) == Dcg(Flags(retrieved, relevant, norm), disc, n)
  {
    if n > 0 {
      DcgOfPrefix(retrieved, relevant, norm, disc, m, n - 1);
    }
  }

  // Moving a relevant path one rank up, past an irrelevant one, never lowers nDCG, average precision
  // or the reciprocal rank, and strictly raises average precision.
  lemma PromotionNeverHurts(retrieved: seq<string>, relevant: set<string>, k: int, norm: string -> string,
                            disc: nat -> real, i: nat)
    requires IsDiscount(disc) && i + 1 < |retrieved|
    requires norm(retrieved[i]) !in relevant && norm(retrieved[i + 1]) in relevant
    ensures NdcgAt(Swapped(retrieved, i), relevant, k, norm, disc) >= NdcgAt(retrieved, relevant, k, norm, disc)
    ensures AveragePrecision(Swapped(retrieved, i), relevant, norm) > AveragePrecision(retrieved, relevant, norm)
    ensures Mrr(Swapped(retrieved, i), relevant, norm) >= Mrr(retrieved, relevant, norm)
  {
    var better := Swapped(retrieved, i);
    var f, g := Flags(retrieved, relevant, norm), Flags(better, relevant, norm);
    assert g == Swapped(f, i);
    SwapRaisesFirstHit(f, i, 0);
    PromotionRaisesPrecision(f, i, |relevant|) by {
      assert relevant != {};
    }
    if k > 0 {
      var m := |Take(retrieved, k)|;
      TakeIsPrefix(retrieved, k);
      TakeIsPrefix(better, k);
      DcgOfPrefix(retrieved, relevant, norm, disc, m, m);
      DcgOfPrefix(better, relevant, norm, disc, m, m);
      SwapRaisesDcg(f, disc, i, m);
      assert disc(i) > disc(i + 1) > 0.0;
      PromotionRaisesQuotient(Dcg(f, disc, m), Dcg(g, disc, m), Ideal(disc, Min(k, |relevant|)), disc,
        Min(k, |relevant|));
    }
  }

  lemma PromotionRaisesPrecision(f: seq<bool>, i: nat, size: nat)
    requires i + 1 < |f| && !f[i] && f[i + 1] && size > 0
    ensures Hits(Swapped(f, i), |f|) == Hits(f, |f|) > 0
    ensures PrecisionSum(Swapped(f, i), |f|) / size as real > PrecisionSum(f, |f|) / size as real
  {
    SwapKeepsHits(f, i, |f|);
    SwapRaisesPrecisions(f, i, |f|);
    HitsGrow(f, i + 2, |f|);
    StrictQuotients(PrecisionSum(f, |f|), PrecisionSum(Swapped(f, i), |f|), size as real);
  }

  lemma StrictQuotients(a: real, b: real, n: real)
    requires a < b && n > 0.0
    ensures a / n < b / n
  {
  }

  lemma PromotionRaisesQuotient(a: real, b: real, ideal: real, disc: nat -> real, n: nat)
    requires IsDiscount(disc) && a <= b && ideal == Ideal(disc, n)
    ensures ideal != 0.0 ==> a / ideal <= b / ideal
  {
    IdealGrows(disc, 0, n);
    if ideal > 0.0 && a < b {
      StrictQuotients(a, b, ideal);
    }
  }
}
