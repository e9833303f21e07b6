// Rank metrics over retrieved paths. `norm` is the path normalization and `disc` the positional
// discount; nothing below depends on which functions they are beyond what is required of them.
// Scores are exact reals.
module IrMetrics {

  // Python's `s[:k]`, which counts from the end for a negative `k`.
  function Take<T>(s: seq<T>, k: int): seq<T> {
    if k >= |s| then s
    else if k >= 0 then s[..k]
    else if -k >= |s| then []
    else s[..|s| + k]
  }

  function Flags(retrieved: seq<string>, relevant: set<string>, norm: string -> string): (flags: seq<bool>)
    ensures |flags| == |retrieved|
    ensures forall i | 0 <= i < |retrieved| :: flags[i] == (norm(retrieved[i]) in relevant)
  {
    seq(|retrieved|, i requires 0 <= i < |retrieved| => norm(retrieved[i]) in relevant)
  }

  // The relevant paths that occur among the retrieved ones.
  function Found(retrieved: seq<string>, relevant: set<string>, norm: string -> string): set<string> {
    set r | r in relevant && exists f <- retrieved :: norm(f) == r
  }

  // -- sums over the first `n` ranks ---------------------------------------------------

  function Hits(flags: seq<bool>, n: nat): nat
    requires n <= |flags|
  {
    if n == 0 then 0 else Hits(flags, n - 1) + (if flags[n - 1] then 1 else 0)
  }

  function Dcg(flags: seq<bool>, disc: nat -> real, n: nat): real
    requires n <= |flags|
  {
    if n == 0 then 0.0 else Dcg(flags, disc, n - 1) + (if flags[n - 1] then disc(n - 1) else 0.0)
  }

  function Ideal(disc: nat -> real, n: nat): real {
    if n == 0 then 0.0 else Ideal(disc, n - 1) + disc(n - 1)
  }

  // The sum of the precisions at the hits.
  function PrecisionSum(flags: seq<bool>, n: nat): real
    requires n <= |flags|
  {
    if n == 0 then 0.0
    else PrecisionSum(flags, n - 1) + (if flags[n - 1] then Hits(flags, n) as real / n as real else 0.0)
  }

  // The reciprocal of the rank of the first hit after rank `n`.
  function FirstHit(flags: seq<bool>, n: nat): real
    requires n <= |flags|
    decreases |flags| - n
  {
    if n == |flags| then 0.0
    else if flags[n] then 1.0 / (n + 1) as real
    else FirstHit(flags, n + 1)
  }

  // -- the metrics -----------------------------------------------------------------------

  function PrecisionAt(retrieved: seq<string>, relevant: set<string>, k: int, norm: string -> string): real {
    var top := Take(retrieved, k);
    if k <= 0 || top == [] then 0.0 else Hits(Flags(top, relevant, norm), |top|) as real / k as real
  }

  function RecallAt(retrieved: seq<string>, relevant: set<string>, k: int, norm: string -> string): real {
    var top := Take(retrieved, k);
    if relevant == {} then 1.0
    else if top == [] then 0.0
    else |Found(top, relevant, norm)| as real / |relevant| as real
  }

  function F1At(retrieved: seq<string>, relevant: set<string>, k: int, norm: string -> string): real {
    var p, r := PrecisionAt(retrieved, relevant, k, norm), RecallAt(retrieved, relevant, k, norm);
    if p + r == 0.0 then 0.0 else 2.0 * p * r / (p + r)
  }

  function FileRecall(retrieved: seq<string>, relevant: set<string>, norm: string -> string): real {
    if relevant == {} then 1.0 else |Found(retrieved, relevant, norm)| as real / |relevant| as real
  }

  function Mrr(retrieved: seq<string>, relevant: set<string>, norm: string -> string): real {
    FirstHit(Flags(retrieved, relevant, norm), 0)
  }

  function NdcgAt(retrieved: seq<string>, relevant: set<string>, k: int, norm: string -> string,
                  disc: nat -> real): real {
    var top := Take(retrieved, k);
    if k <= 0 || relevant == {} then 0.0
    else
      var idcg := Ideal(disc, Min(k, |relevant|));
      if idcg == 0.0 then 0.0 else Dcg(Flags(top, relevant, norm), disc, |top|) / idcg
  }

  function AveragePrecision(retrieved: seq<string>, relevant: set<string>, norm: string -> string): real {
    var flags := Flags(retrieved, relevant, norm);
    if relevant == {} then 1.0
    else if Hits(flags, |flags|) == 0 then 0.0
    else PrecisionSum(flags, |flags|) / |relevant| as real
  }

  function Min(a: nat, b: nat): nat {
    if a < b then a else b
  }

  // -- the loops -------------------------------------------------------------------------

  method ComputeMrr(retrieved: seq<string>, relevant: set<string>, norm: string -> string) returns (r: real)
    ensures r == Mrr(retrieved, relevant, norm)
  {
    ghost var flags := Flags(retrieved, relevant, norm);
    for i := 0 to |retrieved|
      invariant FirstHit(flags, i) == Mrr(retrieved, relevant, norm)
    {
      if norm(retrieved[i]) in relevant {
        return 1.0 / (i + 1) as real;
      }
    }
    return 0.0;
  }

  method ComputeNdcg(retrieved: seq<string>, relevant: set<string>, k: int, norm: string -> string, disc: nat -> real)
    returns (r: real)
    ensures r == NdcgAt(retrieved, relevant, k, norm, disc)
  {
    if k <= 0 || relevant == {} {
      return 0.0;
    }
    var top := Take(retrieved, k);
    ghost var flags := Flags(top, relevant, norm);
    var dcg := 0.0;
    for i := 0 to |top|
      invariant dcg == Dcg(flags, disc, i)
    {
      if norm(top[i]) in relevant {
        dcg := dcg + disc(i);
      }
    }
    var idcg := 0.0;
    for i := 0 to Min(k, |relevant|)
      invariant idcg == Ideal(disc, i)
    {
      idcg := idcg + disc(i);
    }
    return if idcg == 0.0 then 0.0 else dcg / idcg;
  }

  method ComputeAveragePrecision(retrieved: seq<string>, relevant: set<string>, norm: string -> string)
    returns (r: real)
    ensures r == AveragePrecision(retrieved, relevant, norm)
  {
    if relevant == {} {
      return 1.0;
    }
    ghost var flags := Flags(retrieved, relevant, norm);
    var sumPrec, hits := 0.0, 0;
    for i := 0 to |retrieved|
      invariant hits == Hits(flags, i) && sumPrec == PrecisionSum(flags, i)
    {
      if norm(retrieved[i]) in relevant {
        hits := hits + 1;
        sumPrec := sumPrec + hits as real / (i + 1) as real;
      }
    }
    return if hits == 0 then 0.0 else sumPrec / |relevant| as real;
  }
}
