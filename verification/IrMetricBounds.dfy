// When nDCG and average precision stay within 1, exactly, and a ranking that alignment lets through for
// which they do not.
module IrMetricBounds {
  import opened Sequences
  import opened IrMetrics
  import opened IrMetricLaws
  import opened Alignment

  // How many of the first `k` ranks are relevant, repetitions counted.
  function RankHits(retrieved: seq<string>, relevant: set<string>, k: int, norm: string -> string): nat {
    var top := Take(retrieved, k);
    Hits(Flags(top, relevant, norm), |top|)
  }

  // -- nDCG ------------------------------------------------------------------------------------

  lemma FewHitsBoundNdcg(retrieved: seq<string>, relevant: set<string>, k: int, norm: string -> string,
                         disc: nat -> real)
    requires IsDiscount(disc) && (k <= 0 || RankHits(retrieved, relevant, k, norm) <= |relevant|)
    ensures NdcgAt(retrieved, relevant, k, norm, disc) <= 1.0
  {
    if k > 0 && relevant != {} {
      var top := Take(retrieved, k);
      var flags := Flags(top, relevant, norm);
      var m := Min(k, |relevant|);
      TakeIsPrefix(retrieved, k);
      HitsAtMost(flags, |top|);
      DcgAtMostIdeal(flags, disc, |top|);
      IdealGrows(disc, Hits(flags, |top|), m);
      IdealGrows(disc, 0, m);
      FractionOf(Dcg(flags, disc, |top|), Ideal(disc, m));
    }
  }

  // A discount so flat that no ideal ranking of `n` paths makes up for one more hit.
  function Flat(n: nat): nat -> real {
    (i: nat) => 1.0 + 1.0 / (n + 1 + i) as real
  }

  lemma SmallerReciprocal(a: nat, b: nat)
    requires 0 < a < b
    ensures 0.0 < 1.0 / b as real < 1.0 / a as real
  {
  }

  lemma FlatIsDiscount(n: nat)
    ensures IsDiscount(Flat(n))
  {
    forall i: nat, j: nat | i < j
      ensures Flat(n)(i) > Flat(n)(j) > 0.0
    {
      SmallerReciprocal(n + 1 + i, n + 1 + j);
    }
    forall i: nat
      ensures Flat(n)(i) > 0.0
    {
      SmallerReciprocal(n + 1 + i, n + 2 + i);
    }
  }

  lemma {:induction false} FlatDcg(flags: seq<bool>, n: nat, m: nat)
    requires m <= |flags|
    ensures Dcg(flags, Flat(n), m) >= Hits(flags, m) as real
  {
    if m > 0 {
      FlatDcg(flags, n, m - 1);
      SmallerReciprocal(n + m, n + m + 1);
    }
  }

  lemma {:induction false} FlatIdeal(n: nat, m: nat, share: real)
    requires share == 1.0 / (n + 1) as real
    ensures Ideal(Flat(n), m) <= m as real + m as real * share
  {
    if m > 0 {
      FlatIdeal(n, m - 1, share);
      if m > 1 {
        SmallerReciprocal(n + 1, n + m);
      }
      OneMoreShare((m - 1) as real, share);
    }
  }

  lemma OneMoreShare(m: real, share: real)
    ensures (m + 1.0) * share == m * share + share
  {
  }

  lemma WholeOfShares(x: real)
    requires x > 0.0
    ensures x * (1.0 / x) == 1.0
  {
  }

  lemma FlatIdealIsSmall(n: nat, m: nat)
    requires m <= n
    ensures Ideal(Flat(n), m) < (n + 1) as real
  {
    var share := 1.0 / (n + 1) as real;
    FlatIdeal(n, n, share);
    FlatIsDiscount(n);
    IdealGrows(Flat(n), m, n);
    WholeOfShares((n + 1) as real);
    OneMoreShare(n as real, share);
    SmallerReciprocal(n + 1, n + 2);
  }

  lemma ManyHitsBreakNdcg(retrieved: seq<string>, relevant: set<string>, k: int, norm: string -> string)
    requires k > 0 && RankHits(retrieved, relevant, k, norm) > |relevant|
    ensures NdcgAt(retrieved, relevant, k, norm, Flat(|relevant|)) > 1.0
  {
    var top := Take(retrieved, k);
    var flags := Flags(top, relevant, norm);
    var n, disc := |relevant|, Flat(|relevant|);
    HitsNeedRelevant(retrieved, relevant, k, norm);
    FlatIsDiscount(n);
    FlatDcg(flags, n, |top|);
    FlatIdealIsSmall(n, Min(k, n));
    IdealGrows(disc, 0, Min(k, n));
    MoreThanWhole(Dcg(flags, disc, |top|), Ideal(disc, Min(k, n)));
  }

  lemma {:induction false} HitsNeedFlag(flags: seq<bool>, n: nat)
    requires n <= |flags| && Hits(flags, n) > 0
    ensures exists i | 0 <= i < n :: flags[i]
  {
    if !flags[n - 1] {
      HitsNeedFlag(flags, n - 1);
    }
  }

  lemma HitsNeedRelevant(retrieved: seq<string>, relevant: set<string>, k: int, norm: string -> string)
    requires RankHits(retrieved, relevant, k, norm) > 0
    ensures relevant != {} && |relevant| > 0
  {
    var top := Take(retrieved, k);
    HitsNeedFlag(Flags(top, relevant, norm), |top|);
    var i :| 0 <= i < |top| && Flags(top, relevant, norm)[i];
    assert norm(top[i]) in relevant;
  }

  ghost predicate IsBoundedByEveryDiscount(retrieved: seq<string>, relevant: set<string>, k: int,
                                           norm: string -> string) {
    forall disc | IsDiscount(disc) :: NdcgAt(retrieved, relevant, k, norm, disc) <= 1.0
  }

  // nDCG stays within 1 for every discount exactly when the first `k` ranks hold no more hits than there
  // are relevant paths. Distinct paths never do; repetitions may be harmless.
  lemma NdcgBoundIsExact(retrieved: seq<string>, relevant: set<string>, k: int, norm: string -> string)
    ensures IsBoundedByEveryDiscount(retrieved, relevant, k, norm) <==>
            k <= 0 || RankHits(retrieved, relevant, k, norm) <= |relevant|
  {
    if k <= 0 || RankHits(retrieved, relevant, k, norm) <= |relevant| {
      forall disc | IsDiscount(disc)
        ensures NdcgAt(retrieved, relevant, k, norm, disc) <= 1.0
      {
        FewHitsBoundNdcg(retrieved, relevant, k, norm, disc);
      }
    } else {
      FlatIsDiscount(|relevant|);
      ManyHitsBreakNdcg(retrieved, relevant, k, norm);
    }
  }

  // -- average precision ---------------------------------------------------------------------------

  function AllHits(retrieved: seq<string>, relevant: set<string>, norm: string -> string): nat {
    Hits(Flags(retrieved, relevant, norm), |retrieved|)
  }

  lemma FewHitsBoundAveragePrecision(retrieved: seq<string>, relevant: set<string>, norm: string -> string)
    requires AllHits(retrieved, relevant, norm) <= |relevant|
    ensures AveragePrecision(retrieved, relevant, norm) <= 1.0
  {
    if relevant != {} {
      var flags := Flags(retrieved, relevant, norm);
      PrecisionSumBounds(flags, |flags|);
      FractionOf(PrecisionSum(flags, |flags|), |relevant| as real);
    }
  }

  lemma {:induction false} HitsOfConcat(a: seq<string>, b: seq<string>, relevant: set<string>, norm: string -> string)
    ensures AllHits(a + b, relevant, norm) == AllHits(a, relevant, norm) + AllHits(b, relevant, norm)
  {
    if b == [] {
      assert a + b == a;
    } else {
      var n := |b| - 1;
      assert b == b[..n] + [b[n]] && a + b == (a + b[..n]) + [b[n]];
      HitsOfConcat(a, b[..n], relevant, norm);
      OneMorePath(a + b[..n], b[n], relevant, norm);
      OneMorePath(b[..n], b[n], relevant, norm);
    }
  }

  lemma OneMorePath(paths: seq<string>, path: string, relevant: set<string>, norm: string -> string)
    ensures AllHits(paths + [path], relevant, norm)
            == AllHits(paths, relevant, norm) + (if norm(path) in relevant then 1 else 0)
  {
    assert (paths + [path])[..|paths|] == paths;
    HitsOfPrefix(paths + [path], relevant, norm, |paths|, |paths|);
  }

  lemma {:induction false} HitsPermute(a: seq<string>, b: seq<string>, relevant: set<string>, norm: string -> string)
    requires multiset(a) == multiset(b)
    ensures AllHits(a, relevant, norm) == AllHits(b, relevant, norm)
    decreases |a|
  {
    assert |multiset(a)| == |a| && |multiset(b)| == |b|;
    if a != [] {
      var j := FindHead(a, b);
      HitsPermute(a[1..], b[..j] + b[j + 1..], relevant, norm);
      assert a == [a[0]] + a[1..] && b == b[..j] + ([a[0]] + b[j + 1..]);
      HitsOfConcat([a[0]], a[1..], relevant, norm);
      HitsOfConcat(b[..j], [a[0]] + b[j + 1..], relevant, norm);
      HitsOfConcat([a[0]], b[j + 1..], relevant, norm);
      HitsOfConcat(b[..j], b[j + 1..], relevant, norm);
    }
  }

  // The ranking with every relevant path moved to the front.
  function Best(retrieved: seq<string>, relevant: set<string>, norm: string -> string): seq<string> {
    if retrieved == [] then []
    else if norm(retrieved[0]) in relevant then [retrieved[0]] + Best(retrieved[1..], relevant, norm)
    else Best(retrieved[1..], relevant, norm) + [retrieved[0]]
  }

  lemma {:induction false} BestIsRanking(retrieved: seq<string>, relevant: set<string>, norm: string -> string)
    ensures multiset(Best(retrieved, relevant, norm)) == multiset(retrieved)
    ensures |Best(retrieved, relevant, norm)| == |retrieved|
  {
    if retrieved != [] {
      assert retrieved == [retrieved[0]] + retrieved[1..];
      BestIsRanking(retrieved[1..], relevant, norm);
    }
  }

  lemma {:induction false} BestLeads(retrieved: seq<string>, relevant: set<string>, norm: string -> string)
    ensures AllHits(retrieved, relevant, norm) <= |Best(retrieved, relevant, norm)|
    ensures forall i | 0 <= i < AllHits(retrieved, relevant, norm) ::
            norm(Best(retrieved, relevant, norm)[i]) in relevant
  {
    if retrieved != [] {
      var first, rest := retrieved[0], retrieved[1..];
      assert retrieved == [first] + rest;
      HitsOfConcat([first], rest, relevant, norm);
      HitOfOne(first, relevant, norm);
      BestLeads(rest, relevant, norm);
    }
  }

  lemma HitOfOne(path: string, relevant: set<string>, norm: string -> string)
    ensures AllHits([path], relevant, norm) == if norm(path) in relevant then 1 else 0
  {
    var flags := Flags([path], relevant, norm);
    assert Hits(flags, 1) == Hits(flags, 0) + (if flags[0] then 1 else 0);
  }

  lemma {:induction false} PrecisionSumOfFullPrefix(flags: seq<bool>, h: nat)
    requires h <= |flags| && forall i | 0 <= i < h :: flags[i]
    ensures PrecisionSum(flags, h) == h as real
  {
    if h > 0 {
      PrecisionSumOfFullPrefix(flags, h - 1);
      HitsOfFullPrefix(flags, h);
    }
  }

  lemma ManyHitsBreakAveragePrecision(retrieved: seq<string>, relevant: set<string>, norm: string -> string)
    requires AllHits(retrieved, relevant, norm) > |relevant|
    ensures AveragePrecision(Best(retrieved, relevant, norm), relevant, norm) > 1.0
  {
    var best, h := Best(retrieved, relevant, norm), AllHits(retrieved, relevant, norm);
    var flags := Flags(best, relevant, norm);
    BestIsRanking(retrieved, relevant, norm);
    BestLeads(retrieved, relevant, norm);
    HitsPermute(best, retrieved, relevant, norm);
    PrecisionSumOfFullPrefix(flags, h);
    PrecisionSumGrows(flags, h, |flags|);
    assert Take(retrieved, |retrieved|) == retrieved;
    HitsNeedRelevant(retrieved, relevant, |retrieved|, norm);
    MoreThanWhole(PrecisionSum(flags, |flags|), |relevant| as real);
  }

  ghost predicate IsBoundedInEveryOrder(retrieved: seq<string>, relevant: set<string>, norm: string -> string) {
    forall ranking: seq<string> | multiset(ranking) == multiset(retrieved) ::
      AveragePrecision(ranking, relevant, norm) <= 1.0
  }

  // Average precision stays within 1 for every ranking of the retrieved paths exactly when they hold no
  // more hits than there are relevant paths.
  lemma AveragePrecisionBoundIsExact(retrieved: seq<string>, relevant: set<string>, norm: string -> string)
    ensures IsBoundedInEveryOrder(retrieved, relevant, norm) <==> AllHits(retrieved, relevant, norm) <= |relevant|
  {
    if AllHits(retrieved, relevant, norm) <= |relevant| {
      forall ranking: seq<string> | multiset(ranking) == multiset(retrieved)
        ensures AveragePrecision(ranking, relevant, norm) <= 1.0
      {
        HitsPermute(ranking, retrieved, relevant, norm);
        FewHitsBoundAveragePrecision(ranking, relevant, norm);
      }
    } else {
      BestIsRanking(retrieved, relevant, norm);
      ManyHitsBreakAveragePrecision(retrieved, relevant, norm);
    }
  }

  // -- nDCG for one discount -------------------------------------------------------------------------------

  ghost predicate IsNdcgBoundedInEveryOrder(retrieved: seq<string>, relevant: set<string>, k: int,
                                            norm: string -> string, disc: nat -> real) {
    forall ranking: seq<string> | multiset(ranking) == multiset(retrieved) ::
      NdcgAt(ranking, relevant, k, norm, disc) <= 1.0
  }

  lemma TopHitsAreHits(ranking: seq<string>, relevant: set<string>, k: int, norm: string -> string)
    requires k > 0
    ensures RankHits(ranking, relevant, k, norm) <= Min(AllHits(ranking, relevant, norm), k)
  {
    var top := Take(ranking, k);
    TakeIsPrefix(ranking, k);
    HitsAtMost(Flags(top, relevant, norm), |top|);
    HitsOfPrefix(ranking, relevant, norm, |top|, |top|);
    HitsGrow(Flags(ranking, relevant, norm), |top|, |ranking|);
  }

  lemma FewHitsBoundOneNdcg(ranking: seq<string>, relevant: set<string>, k: int, norm: string -> string,
                            disc: nat -> real)
    requires IsDiscount(disc) && k > 0
    requires Min(AllHits(ranking, relevant, norm), k) <= Min(k, |relevant|)
    ensures NdcgAt(ranking, relevant, k, norm, disc) <= 1.0
  {
    TopHitsAreHits(ranking, relevant, k, norm);
    FewHitsBoundNdcg(ranking, relevant, k, norm, disc);
  }

  // With every relevant path moved to the front the first `k` ranks gain as much as they can.
  lemma BestGain(retrieved: seq<string>, relevant: set<string>, k: int, norm: string -> string, disc: nat -> real)
    requires IsDiscount(disc) && k > 0
    ensures var top := Take(Best(retrieved, relevant, norm), k);
            Dcg(Flags(top, relevant, norm), disc, |top|) >= Ideal(disc, Min(AllHits(retrieved, relevant, norm), k))
  {
    var best, h := Best(retrieved, relevant, norm), Min(AllHits(retrieved, relevant, norm), k);
    var top := Take(best, k);
    BestLeads(retrieved, relevant, norm);
    TakeIsPrefix(best, k);
    LeadingGain(Flags(top, relevant, norm), disc, h, |top|);
  }

  lemma {:induction false} LeadingGain(flags: seq<bool>, disc: nat -> real, h: nat, n: nat)
    requires IsDiscount(disc) && h <= n <= |flags| && forall i | 0 <= i < h :: flags[i]
    ensures Dcg(flags, disc, n) >= Ideal(disc, h)
  {
    if n > 0 {
      LeadingGain(flags, disc, if h == n then h - 1 else h, n - 1);
      assert disc(n - 1) > 0.0;
    }
  }

  lemma ManyHitsBreakOneNdcg(retrieved: seq<string>, relevant: set<string>, k: int, norm: string -> string,
                             disc: nat -> real)
    requires IsDiscount(disc) && k > 0
    requires Min(AllHits(retrieved, relevant, norm), k) > Min(k, |relevant|)
    ensures NdcgAt(Best(retrieved, relevant, norm), relevant, k, norm, disc) > 1.0
  {
    var ideal := Min(k, |relevant|);
    assert Take(retrieved, |retrieved|) == retrieved;
    HitsNeedRelevant(retrieved, relevant, |retrieved|, norm);
    BestGain(retrieved, relevant, k, norm, disc);
    IdealGrows(disc, ideal, Min(AllHits(retrieved, relevant, norm), k));
    IdealGrows(disc, 0, ideal);
    var top := Take(Best(retrieved, relevant, norm), k);
    MoreThanWhole(Dcg(Flags(top, relevant, norm), disc, |top|), Ideal(disc, ideal));
  }

  // For any one discount: nDCG at `k` stays within 1 in every order of the retrieved paths exactly when no
  // more hits fit among `k` ranks than relevant paths do.
  lemma NdcgBoundInEveryOrderIsExact(retrieved: seq<string>, relevant: set<string>, k: int, norm: string -> string,
                                     disc: nat -> real)
    requires IsDiscount(disc)
    ensures IsNdcgBoundedInEveryOrder(retrieved, relevant, k, norm, disc) <==>
            k <= 0 || Min(AllHits(retrieved, relevant, norm), k) <= Min(k, |relevant|)
  {
    if k > 0 && Min(AllHits(retrieved, relevant, norm), k) <= Min(k, |relevant|) {
      forall ranking: seq<string> | multiset(ranking) == multiset(retrieved)
        ensures NdcgAt(ranking, relevant, k, norm, disc) <= 1.0
      {
        HitsPermute(ranking, retrieved, relevant, norm);
        FewHitsBoundOneNdcg(ranking, relevant, k, norm, disc);
      }
    } else if k > 0 {
      BestIsRanking(retrieved, relevant, norm);
      ManyHitsBreakOneNdcg(retrieved, relevant, k, norm, disc);
    }
  }

  // -- what alignment lets through ---------------------------------------------------------------------

  // Two spellings of one normalized path: different components, neither ending in the other's, so that
  // alignment takes them for two paths.
  predicate AreTwins(p: Path, q: Path, norm: string -> string, comps: Components) {
    norm(p) == norm(q) && comps(p) != [] && comps(q) != [] && comps(p) != comps(q) && !EndsIn(comps(q), comps(p))
  }

  lemma AlignmentKeepsTwins(p: Path, q: Path, norm: string -> string, comps: Components)
    requires AreTwins(p, q, norm, comps)
    ensures Align([p, q], [p], comps) == [p, q]
  {
    assert EndsIn(comps(p), comps(p));
    assert [p][1..] == [] && [p, q][1..] == [q] && [q][1..] == [];
    assert Canon(p, [p], comps) == p && Canon(q, [p], comps) == q;
    var none: set<seq<string>> := {};
    var seen := none + {comps(p)};
    assert AlignFrom([q], [p], comps, seen) == [q] + AlignFrom([], [p], comps, seen + {comps(q)}) == [q];
    assert AlignFrom([p, q], [p], comps, none) == [p] + AlignFrom([q], [p], comps, seen);
  }

  lemma TwinsHitTwice(p: Path, q: Path, norm: string -> string)
    requires norm(p) == norm(q)
    ensures Flags([p, q], {norm(p)}, norm) == [true, true] && |{norm(p)}| == 1
    ensures RankHits([p, q], {norm(p)}, 2, norm) == 2 && AllHits([p, q], {norm(p)}, norm) == 2
  {
    var flags := Flags([p, q], {norm(p)}, norm);
    assert flags == [true, true];
    HitsOfFullPrefix(flags, 2);
    assert Take([p, q], 2) == [p, q];
  }

  // The paths foo/bar/x.go and bar/x.go both normalize to bar/x.go, because a leading segment that names
  // a repository is dropped if more than one segment follows it. Alignment to the required path
  // foo/bar/x.go keeps both, and the one relevant path is hit twice.
  predicate SpellsTwice(norm: string -> string, comps: Components) {
    && norm("foo/bar/x.go") == "bar/x.go" && norm("bar/x.go") == "bar/x.go"
    && comps("foo/bar/x.go") == ["foo", "bar", "x.go"] && comps("bar/x.go") == ["bar", "x.go"]
  }

  lemma SpellingsAreTwins(norm: string -> string, comps: Components)
    requires SpellsTwice(norm, comps)
    ensures AreTwins("foo/bar/x.go", "bar/x.go", norm, comps)
  {
    assert |comps("foo/bar/x.go")| == 3 && |comps("bar/x.go")| == 2;
  }

  // On that ranking nDCG exceeds 1 for every discount.
  lemma DuplicatesBreakNdcg(norm: string -> string, comps: Components, disc: nat -> real)
    requires SpellsTwice(norm, comps) && IsDiscount(disc)
    ensures var aligned := Align(["foo/bar/x.go", "bar/x.go"], ["foo/bar/x.go"], comps);
            aligned == ["foo/bar/x.go", "bar/x.go"] && NdcgAt(aligned, {"bar/x.go"}, 2, norm, disc) > 1.0
  {
    SpellingsAreTwins(norm, comps);
    AlignmentKeepsTwins("foo/bar/x.go", "bar/x.go", norm, comps);
    TwinsBreakNdcg("foo/bar/x.go", "bar/x.go", norm, disc);
  }

  lemma TwinsBreakNdcg(p: Path, q: Path, norm: string -> string, disc: nat -> real)
    requires norm(p) == norm(q) && IsDiscount(disc)
    ensures NdcgAt([p, q], {norm(p)}, 2, norm, disc) > 1.0
  {
    TwinsHitTwice(p, q, norm);
    var flags := Flags([p, q], {norm(p)}, norm);
    assert Dcg(flags, disc, 1) == Dcg(flags, disc, 0) + disc(0);
    assert Dcg(flags, disc, 2) == Dcg(flags, disc, 1) + disc(1);
    assert Ideal(disc, 1) == Ideal(disc, 0) + disc(0);
    assert Take([p, q], 2) == [p, q] && Min(2, 1) == 1;
    MoreThanWhole(disc(0) + disc(1), disc(0));
  }

  // And average precision is 2.
  lemma DuplicatesBreakAveragePrecision(norm: string -> string, comps: Components)
    requires SpellsTwice(norm, comps)
    ensures AveragePrecision(Align(["foo/bar/x.go", "bar/x.go"], ["foo/bar/x.go"], comps), {"bar/x.go"}, norm) == 2.0
  {
    SpellingsAreTwins(norm, comps);
    AlignmentKeepsTwins("foo/bar/x.go", "bar/x.go", norm, comps);
    TwinsHitTwice("foo/bar/x.go", "bar/x.go", norm);
    var flags := Flags(["foo/bar/x.go", "bar/x.go"], {"bar/x.go"}, norm);
    PrecisionSumOfFullPrefix(flags, 2);
  }
}
