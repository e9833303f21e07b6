// Rewriting retrieved paths to the required paths they end in, without duplicates and in the order
// of first sight. `comps` splits a path into its components; the laws hold for any such function.
module Alignment {

  type Path = string

  type Components = Path -> seq<string>

  // `b` is a trailing slice of `a`.
  predicate EndsIn<T(==)>(a: seq<T>, b: seq<T>) {
    |b| <= |a| && a[|a| - |b|..] == b
  }

  // `path` ends in the components of the required path `r`.
  predicate Matches(path: Path, r: Path, comps: Components) {
    comps(r) != [] && EndsIn(comps(path), comps(r))
  }

  // The first required path that `path` ends in, or the path itself.
  function Canon(path: Path, required: seq<Path>, comps: Components): Path {
    if required == [] then path
    else if Matches(path, required[0], comps) then required[0]
    else Canon(path, required[1..], comps)
  }

  // What remains of `retrieved` when the keys in `seen` have been kept already.
  function AlignFrom(retrieved: seq<Path>, required: seq<Path>, comps: Components, seen: set<seq<string>>): seq<Path> {
    if retrieved == [] then []
    else
      var canon := Canon(retrieved[0], required, comps);
      if comps(canon) != [] && comps(canon) !in seen
      then [canon] + AlignFrom(retrieved[1..], required, comps, seen + {comps(canon)})
      else AlignFrom(retrieved[1..], required, comps, seen)
  }

  function Align(retrieved: seq<Path>, required: seq<Path>, comps: Components): seq<Path> {
    AlignFrom(retrieved, required, comps, {})
  }

  method FindCanon(path: Path, required: seq<Path>, comps: Components) returns (canon: Path)
    ensures canon == Canon(path, required, comps)
  {
    assert required[0..] == required;
    for i := 0 to |required|
      invariant Canon(path, required[i..], comps) == Canon(path, required, comps)
    {
      assert required[i..][1..] == required[i + 1..];
      var n := |comps(required[i])|;
      if n > 0 && |comps(path)| >= n && comps(path)[|comps(path)| - n..] == comps(required[i]) {
        return required[i];
      }
    }
    return path;
  }

  method AlignRetrieved(retrieved: seq<Path>, required: seq<Path>, comps: Components) returns (aligned: seq<Path>)
    ensures aligned == Align(retrieved, required, comps)
  {
    aligned := [];
    var seen := {};
    ghost var all := Align(retrieved, required, comps);
    assert retrieved[0..] == retrieved && aligned + all == all;
    for i := 0 to |retrieved|
      invariant aligned + AlignFrom(retrieved[i..], required, comps, seen) == all
    {
      assert retrieved[i..][1..] == retrieved[i + 1..];
      var canon := FindCanon(retrieved[i], required, comps);
      var key := comps(canon);
      if key != [] && key !in seen {
        seen := seen + {key};
        assert aligned + ([canon] + AlignFrom(retrieved[i + 1..], required, comps, seen))
            == aligned + [canon] + AlignFrom(retrieved[i + 1..], required, comps, seen);
        aligned := aligned + [canon];
      }
    }
  }

  // -- what is rewritten -------------------------------------------------------------------

  lemma EndsInIsTransitive<T>(a: seq<T>, b: seq<T>, c: seq<T>)
    requires EndsIn(a, b) && EndsIn(b, c)
    ensures EndsIn(a, c)
  {
    assert c == b[|b| - |c|..] == a[|a| - |b|..][|b| - |c|..] == a[|a| - |c|..];
  }

  // A path matches a required one if its components are some others and then those of the required path, of
  // which there must be some.
  lemma MatchingIs(path: Path, r: Path, comps: Components)
    ensures Matches(path, r, comps) <==> comps(r) != [] && exists dir :: comps(path) == dir + comps(r)
  {
    var a, b := comps(path), comps(r);
    if EndsIn(a, b) {
      assert a == a[..|a| - |b|] + b;
    }
    if dir :| a == dir + b {
      assert |dir| == |a| - |b| && a[|dir|..] == b;
    }
  }

  predicate IsFirstMatch(path: Path, required: seq<Path>, comps: Components, i: nat) {
    i < |required| && Matches(path, required[i], comps) && forall j | 0 <= j < i :: !Matches(path, required[j], comps)
  }

  // The index of the first match, or the length where there is none.
  lemma {:induction false} FindMatch(path: Path, required: seq<Path>, comps: Components) returns (i: nat)
    ensures i <= |required|
    ensures i < |required| ==> IsFirstMatch(path, required, comps, i) && Canon(path, required, comps) == required[i]
    ensures i == |required| ==>
              Canon(path, required, comps) == path && forall j | 0 <= j < i :: !Matches(path, required[j], comps)
  {
    i := 0;
    if required != [] && !Matches(path, required[0], comps) {
      var rest := required[1..];
      var k := FindMatch(path, rest, comps);
      assert forall j | 0 <= j < |rest| :: rest[j] == required[j + 1];
      i := k + 1;
    }
  }

  // A path is rewritten exactly if it ends in some required path, and then to the first of those.
  lemma CanonIsFirstMatch(path: Path, required: seq<Path>, comps: Components)
    ensures (forall r <- required :: !Matches(path, r, comps)) ==> Canon(path, required, comps) == path
    ensures (exists r <- required :: Matches(path, r, comps)) ==>
              exists i: nat :: IsFirstMatch(path, required, comps, i) && Canon(path, required, comps) == required[i]
  {
    var i := FindMatch(path, required, comps);
    if i == |required| {
      assert forall r <- required :: !Matches(path, r, comps);
    } else {
      assert required[i] in required;
    }
  }

  // A canonical path is its own canonical path: whatever it ends in, the original path ended in too.
  lemma {:induction false} CanonIsStable(path: Path, required: seq<Path>, comps: Components)
    ensures Canon(Canon(path, required, comps), required, comps) == Canon(path, required, comps)
  {
    var canon := Canon(path, required, comps);
    CanonIsFirstMatch(path, required, comps);
    if exists r <- required :: Matches(path, r, comps) {
      var i :| 0 <= i < |required| && canon == required[i] && Matches(path, required[i], comps)
               && forall j | 0 <= j < i :: !Matches(path, required[j], comps);
      forall j | 0 <= j < i
        ensures !Matches(canon, required[j], comps)
      {
        if Matches(canon, required[j], comps) {
          EndsInIsTransitive(comps(path), comps(canon), comps(required[j]));
          assert false;
        }
      }
      assert Matches(canon, canon, comps);
      FirstMatchIsCanon(canon, required, comps, i);
    }
  }

  lemma {:induction false} FirstMatchIsCanon(path: Path, required: seq<Path>, comps: Components, i: nat)
    requires i < |required| && Matches(path, required[i], comps)
    requires forall j | 0 <= j < i :: !Matches(path, required[j], comps)
    ensures Canon(path, required, comps) == required[i]
  {
    if i > 0 {
      FirstMatchIsCanon(path, required[1..], comps, i - 1);
    }
  }

  // -- what is kept ------------------------------------------------------------------------

  predicate DistinctKeys(paths: seq<Path>, comps: Components) {
    forall i, j | 0 <= i < j < |paths| :: comps(paths[i]) != comps(paths[j])
  }

  // No two aligned paths have the same components and none has no components.
  lemma {:induction false} AlignedKeysAreDistinct(retrieved: seq<Path>, required: seq<Path>, comps: Components,
                                                  seen: set<seq<string>>)
    ensures DistinctKeys(AlignFrom(retrieved, required, comps, seen), comps)
    ensures forall p <- AlignFrom(retrieved, required, comps, seen) :: comps(p) != [] && comps(p) !in seen
  {
    if retrieved != [] {
      var canon := Canon(retrieved[0], required, comps);
      if comps(canon) != [] && comps(canon) !in seen {
        var rest := AlignFrom(retrieved[1..], required, comps, seen + {comps(canon)});
        AlignedKeysAreDistinct(retrieved[1..], required, comps, seen + {comps(canon)});
        assert forall i | 0 <= i < |rest| :: rest[i] in rest;
      } else {
        AlignedKeysAreDistinct(retrieved[1..], required, comps, seen);
      }
    }
  }

  // `p` is the canonical path of the retrieved path at rank `i`, which nothing earlier stands for.
  predicate IsFirstSight(p: Path, i: nat, retrieved: seq<Path>, required: seq<Path>, comps: Components,
                         seen: set<seq<string>>) {
    && i < |retrieved| && p == Canon(retrieved[i], required, comps) && comps(p) != [] && comps(p) !in seen
    && forall j | 0 <= j < i :: comps(Canon(retrieved[j], required, comps)) != comps(p)
  }

  // First sight among all paths at rank `i + 1` is first sight among the later ones at rank `i`.
  lemma SightsShift(p: Path, i: nat, retrieved: seq<Path>, required: seq<Path>, comps: Components,
                    seen: set<seq<string>>, seen': set<seq<string>>)
    requires retrieved != []
    requires var canon := Canon(retrieved[0], required, comps);
             seen' == if comps(canon) != [] && comps(canon) !in seen then seen + {comps(canon)} else seen
    ensures IsFirstSight(p, i, retrieved[1..], required, comps, seen') <==>
            IsFirstSight(p, i + 1, retrieved, required, comps, seen)
  {
    var rest := retrieved[1..];
    assert forall j | 0 <= j < |rest| :: rest[j] == retrieved[j + 1];
    if IsFirstSight(p, i, rest, required, comps, seen') {
      forall j | 0 <= j < i + 1
        ensures comps(Canon(retrieved[j], required, comps)) != comps(p)
      {
        assert j > 0 ==> retrieved[j] == rest[j - 1];
      }
    }
  }

  function Seen(retrieved: seq<Path>, required: seq<Path>, comps: Components, seen: set<seq<string>>): set<seq<string>>
    requires retrieved != []
  {
    var canon := Canon(retrieved[0], required, comps);
    if comps(canon) != [] && comps(canon) !in seen then seen + {comps(canon)} else seen
  }

  function Later(ranks: seq<nat>): (r: seq<nat>)
    ensures |r| == |ranks| && forall i | 0 <= i < |r| :: r[i] == ranks[i] + 1
  {
    seq(|ranks|, i requires 0 <= i < |ranks| => ranks[i] + 1)
  }

  // The ranks at which the aligned paths were first seen.
  function Ranks(retrieved: seq<Path>, required: seq<Path>, comps: Components, seen: set<seq<string>>): seq<nat> {
    if retrieved == [] then []
    else
      var canon := Canon(retrieved[0], required, comps);
      (if comps(canon) != [] && comps(canon) !in seen then [0] else [])
      + Later(Ranks(retrieved[1..], required, comps, Seen(retrieved, required, comps, seen)))
  }

  lemma {:induction false} RanksIncrease(retrieved: seq<Path>, required: seq<Path>, comps: Components,
                                         seen: set<seq<string>>)
    ensures forall i, j | 0 <= i < j < |Ranks(retrieved, required, comps, seen)| ::
              Ranks(retrieved, required, comps, seen)[i] < Ranks(retrieved, required, comps, seen)[j]
  {
    if retrieved != [] {
      RanksIncrease(retrieved[1..], required, comps, Seen(retrieved, required, comps, seen));
    }
  }

  lemma {:induction false} RanksLocateAligned(retrieved: seq<Path>, required: seq<Path>, comps: Components,
                                              seen: set<seq<string>>)
    ensures var aligned, ranks := AlignFrom(retrieved, required, comps, seen), Ranks(retrieved, required, comps, seen);
            Locates(aligned, ranks, retrieved, required, comps)
  {
    if retrieved != [] {
      var seen' := Seen(retrieved, required, comps, seen);
      var aligned, ranks := AlignFrom(retrieved[1..], required, comps, seen'),
        Ranks(retrieved[1..], required, comps, seen');
      RanksLocateAligned(retrieved[1..], required, comps, seen');
      LocatedLater(aligned, ranks, retrieved, required, comps);
      var canon := Canon(retrieved[0], required, comps);
      if comps(canon) == [] || comps(canon) in seen {
        assert [] + aligned == aligned && [] + Later(ranks) == Later(ranks);
      }
    }
  }

  // `ranks` are where the paths that `aligned` stands for were retrieved.
  predicate Locates(aligned: seq<Path>, ranks: seq<nat>, retrieved: seq<Path>, required: seq<Path>, comps: Components) {
    |ranks| == |aligned| &&
    forall i | 0 <= i < |ranks| :: ranks[i] < |retrieved| && aligned[i] == Canon(retrieved[ranks[i]], required, comps)
  }

  lemma LocatedLater(aligned: seq<Path>, ranks: seq<nat>, retrieved: seq<Path>, required: seq<Path>, comps: Components)
    requires retrieved != [] && Locates(aligned, ranks, retrieved[1..], required, comps)
    ensures Locates(aligned, Later(ranks), retrieved, required, comps)
    ensures Locates([Canon(retrieved[0], required, comps)] + aligned, [0] + Later(ranks), retrieved, required, comps)
  {
    forall i | 0 <= i < |ranks|
      ensures Later(ranks)[i] < |retrieved| && aligned[i] == Canon(retrieved[Later(ranks)[i]], required, comps)
    {
      assert retrieved[1..][ranks[i]] == retrieved[ranks[i] + 1];
    }
  }

  lemma {:induction false} RanksAreFirstSights(retrieved: seq<Path>, required: seq<Path>, comps: Components,
                                               seen: set<seq<string>>, i: nat)
    requires i < |retrieved|
    ensures i in Ranks(retrieved, required, comps, seen) <==>
            IsFirstSight(Canon(retrieved[i], required, comps), i, retrieved, required, comps, seen)
    decreases i
  {
    var seen' := Seen(retrieved, required, comps, seen);
    var later := Ranks(retrieved[1..], required, comps, seen');
    if i > 0 {
      var p := Canon(retrieved[i], required, comps);
      assert retrieved[1..][i - 1] == retrieved[i];
      SightsShift(p, i - 1, retrieved, required, comps, seen, seen');
      RanksAreFirstSights(retrieved[1..], required, comps, seen', i - 1);
      LaterContains(later, i - 1);
    } else {
      LaterHasNoZero(later);
    }
  }

  lemma LaterContains(ranks: seq<nat>, i: nat)
    ensures i + 1 in Later(ranks) <==> i in ranks
  {
    if i in ranks {
      var k :| 0 <= k < |ranks| && ranks[k] == i;
      assert Later(ranks)[k] == i + 1;
    }
  }

  lemma LaterHasNoZero(ranks: seq<nat>)
    ensures 0 !in Later(ranks)
  {
  }

  // The aligned list holds the canonical path of exactly those ranks at which a path with components
  // is seen for the first time, in the order of the ranks.
  lemma AlignKeepsFirstSights(retrieved: seq<Path>, required: seq<Path>, comps: Components)
    ensures var aligned, ranks := Align(retrieved, required, comps), Ranks(retrieved, required, comps, {});
            && |ranks| == |aligned|
            && (forall i | 0 <= i < |ranks| ::
               ranks[i] < |retrieved| && aligned[i] == Canon(retrieved[ranks[i]], required, comps))
            && (forall i, j | 0 <= i < j < |ranks| :: ranks[i] < ranks[j])
            && forall i | 0 <= i < |retrieved| ::
                 i in ranks <==> IsFirstSight(Canon(retrieved[i], required, comps), i, retrieved, required, comps, {})
  {
    RanksLocateAligned(retrieved, required, comps, {});
    RanksIncrease(retrieved, required, comps, {});
    forall i | 0 <= i < |retrieved|
      ensures i in Ranks(retrieved, required, comps, {}) <==>
              IsFirstSight(Canon(retrieved[i], required, comps), i, retrieved, required, comps, {})
    {
      RanksAreFirstSights(retrieved, required, comps, {}, i);
    }
  }

  // -- aligning twice ------------------------------------------------------------------------

  lemma {:induction false} AlignOfCanonical(paths: seq<Path>, required: seq<Path>, comps: Components,
                                            seen: set<seq<string>>)
    requires DistinctKeys(paths, comps)
    requires forall p <- paths :: Canon(p, required, comps) == p && comps(p) != [] && comps(p) !in seen
    ensures AlignFrom(paths, required, comps, seen) == paths
  {
    if paths != [] {
      assert paths == [paths[0]] + paths[1..];
      assert forall i | 0 <= i < |paths[1..]| :: paths[1..][i] == paths[i + 1];
      assert paths[0] in paths;
      AlignOfCanonical(paths[1..], required, comps, seen + {comps(paths[0])});
    }
  }

  lemma {:induction false} AlignedPathsAreCanonical(retrieved: seq<Path>, required: seq<Path>, comps: Components,
                                                       seen: set<seq<string>>)
    ensures forall p <- AlignFrom(retrieved, required, comps, seen) :: Canon(p, required, comps) == p
  {
    if retrieved != [] {
      var canon := Canon(retrieved[0], required, comps);
      CanonIsStable(retrieved[0], required, comps);
      AlignedPathsAreCanonical(retrieved[1..], required, comps, seen + {comps(canon)});
      AlignedPathsAreCanonical(retrieved[1..], required, comps, seen);
    }
  }

  // Aligning an aligned list changes nothing.
  lemma AlignIsIdempotent(retrieved: seq<Path>, required: seq<Path>, comps: Components)
    ensures Align(Align(retrieved, required, comps), required, comps) == Align(retrieved, required, comps)
  {
    AlignedKeysAreDistinct(retrieved, required, comps, {});
    AlignedPathsAreCanonical(retrieved, required, comps, {});
    AlignOfCanonical(Align(retrieved, required, comps), required, comps, {});
  }
}
