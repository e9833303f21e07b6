// Python's stable sort, and the order of strings and of tuples of them.
module Sorting {
  import opened Sequences

  ghost predicate IsPreorder<T(!new)>(le: (T, T) -> bool) {
    (forall x, y :: le(x, y) || le(y, x)) && (forall x, y, z :: le(x, y) && le(y, z) ==> le(x, z))
  }

  ghost predicate SortedBy<T>(le: (T, T) -> bool, s: seq<T>) {
    forall i, j | 0 <= i < j < |s| :: le(s[i], s[j])
  }

  // `x` goes before the first element that is not smaller, so equal elements keep their order.
  function Insert<T>(le: (T, T) -> bool, x: T, s: seq<T>): seq<T> {
    if s == [] then [x]
    else if le(x, s[0]) then [x] + s
    else [s[0]] + Insert(le, x, s[1..])
  }

  function Sort<T>(le: (T, T) -> bool, s: seq<T>): seq<T> {
    if s == [] then [] else Insert(le, s[0], Sort(le, s[1..]))
  }

  lemma {:induction false} InsertKeepsElements<T>(le: (T, T) -> bool, x: T, s: seq<T>)
    ensures multiset(Insert(le, x, s)) == multiset(s) + multiset{x}
    ensures |Insert(le, x, s)| == |s| + 1
  {
    if s != [] {
      assert s == [s[0]] + s[1..];
      InsertKeepsElements(le, x, s[1..]);
    }
  }

  lemma {:induction false} SortKeepsElements<T>(le: (T, T) -> bool, s: seq<T>)
    ensures multiset(Sort(le, s)) == multiset(s)
    ensures |Sort(le, s)| == |s|
    ensures forall x :: x in Sort(le, s) <==> x in s
  {
    if s != [] {
      assert s == [s[0]] + s[1..];
      SortKeepsElements(le, s[1..]);
      InsertKeepsElements(le, s[0], Sort(le, s[1..]));
    }
    SameElements(Sort(le, s), s);
  }

  lemma SameElements<T>(a: seq<T>, b: seq<T>)
    requires multiset(a) == multiset(b)
    ensures |a| == |b|
    ensures forall x :: x in a <==> x in b
  {
    assert |multiset(a)| == |a| && |multiset(b)| == |b|;
    forall x
      ensures x in a <==> x in b
    {
      assert x in a <==> x in multiset(a);
      assert x in b <==> x in multiset(b);
    }
  }

  lemma {:induction false} InsertSorts<T(!new)>(le: (T, T) -> bool, x: T, s: seq<T>)
    requires IsPreorder(le) && SortedBy(le, s)
    ensures SortedBy(le, Insert(le, x, s))
  {
    if s != [] && !le(x, s[0]) {
      InsertSorts(le, x, s[1..]);
      var rest := Insert(le, x, s[1..]);
      InsertKeepsElements(le, x, s[1..]);
      forall j | 0 <= j < |rest|
        ensures le(s[0], rest[j])
      {
        assert rest[j] in multiset(rest);
        if rest[j] != x {
          assert rest[j] in s[1..];
        }
      }
    }
  }

  lemma {:induction false} SortSorts<T(!new)>(le: (T, T) -> bool, s: seq<T>)
    requires IsPreorder(le)
    ensures SortedBy(le, Sort(le, s))
  {
    if s != [] {
      SortSorts(le, s[1..]);
      InsertSorts(le, s[0], Sort(le, s[1..]));
    }
  }

  // -- sorted sets ---------------------------------------------------------------

  predicate StrictlySorted<T(==)>(le: (T, T) -> bool, s: seq<T>) {
    forall i, j | 0 <= i < j < |s| :: le(s[i], s[j]) && s[i] != s[j]
  }

  ghost predicate IsAntisymmetric<T(!new)>(le: (T, T) -> bool) {
    forall x, y :: le(x, y) && le(y, x) ==> x == y
  }

  // The elements of a set in order, as `sorted` lists them.
  method SortedElements<T(!new, ==)>(le: (T, T) -> bool, s: set<T>) returns (r: seq<T>)
    requires IsPreorder(le)
    ensures StrictlySorted(le, r) && forall x :: x in r <==> x in s
  {
    var elements: seq<T> := [];
    var rest := s;
    while rest != {}
      invariant Distinct(elements) && rest <= s
      invariant forall x :: x in elements <==> x in s && x !in rest
    {
      var x :| x in rest;
      DistinctConcat(elements, [x]);
      assert forall y :: y in elements + [x] <==> y in elements || y == x;
      elements := elements + [x];
      rest := rest - {x};
    }
    r := Sort(le, elements);
    SortSorts(le, elements);
    SortKeepsElements(le, elements);
    DistinctPermutes(r, elements);
  }

  // A set can be listed in order in one way only.
  lemma {:induction false} SortedElementsAreUnique<T(!new)>(le: (T, T) -> bool, a: seq<T>, b: seq<T>)
    requires IsAntisymmetric(le) && StrictlySorted(le, a) && StrictlySorted(le, b)
    requires forall x :: x in a <==> x in b
    ensures a == b
  {
    assert b == [] || b[0] in a;
    if a != [] {
      assert a[0] in b;
      assert le(a[0], b[0]) || a[0] == b[0];
      assert le(b[0], a[0]) || a[0] == b[0];
      assert a == [a[0]] + a[1..] && b == [b[0]] + b[1..];
      forall x
        ensures x in a[1..] <==> x in b[1..]
      {
        assert x in a[1..] <==> x in a && x != a[0];
        assert x in b[1..] <==> x in b && x != b[0];
      }
      SortedElementsAreUnique(le, a[1..], b[1..]);
    }
  }

  lemma StrictlySortedConcat<T>(le: (T, T) -> bool, a: seq<T>, b: seq<T>)
    requires StrictlySorted(le, a) && StrictlySorted(le, b)
    requires forall x <- a, y <- b :: le(x, y) && x != y
    ensures StrictlySorted(le, a + b)
  {
    forall i, j | 0 <= i < j < |a + b|
      ensures le((a + b)[i], (a + b)[j]) && (a + b)[i] != (a + b)[j]
    {
      if i < |a| <= j {
        assert (a + b)[i] in a && (a + b)[j] in b;
      }
    }
  }

  // -- strings -------------------------------------------------------------------

  // The order of strings by code points.
  predicate StringLe(a: string, b: string) {
    a == "" || (b != "" && (a[0] < b[0] || (a[0] == b[0] && StringLe(a[1..], b[1..]))))
  }

  // One text is the beginning of the other, or at the first place where they differ it has the smaller
  // character.
  ghost predicate ComesFirst(a: string, b: string) {
    a <= b || exists k | 0 <= k < |a| && k < |b| :: a[..k] == b[..k] && a[k] < b[k]
  }

  lemma SameHead(a: string, b: string)
    requires a != "" && b != "" && a[0] == b[0]
    ensures ComesFirst(a, b) <==> ComesFirst(a[1..], b[1..])
  {
    var x, y := a[1..], b[1..];
    assert a == [a[0]] + x && b == [b[0]] + y;
    if k :| 0 <= k < |x| && k < |y| && x[..k] == y[..k] && x[k] < y[k] {
      assert a[..k + 1] == [a[0]] + x[..k] && b[..k + 1] == [b[0]] + y[..k];
      assert a[k + 1] < b[k + 1];
    }
    if k :| 0 <= k < |a| && k < |b| && a[..k] == b[..k] && a[k] < b[k] {
      assert k > 0;
      assert x[..k - 1] == a[..k][1..] && y[..k - 1] == b[..k][1..];
      assert x[k - 1] < y[k - 1];
    }
  }

  lemma OtherHead(a: string, b: string)
    requires a != "" && b != "" && a[0] != b[0]
    ensures ComesFirst(a, b) <==> a[0] < b[0]
  {
    assert a[..0] == b[..0];
    assert forall k | 0 < k <= |a| && k <= |b| :: a[..k][0] == a[0] && b[..k][0] == b[0];
  }

  lemma {:induction false} StringLeIsLexicographic(a: string, b: string)
    ensures StringLe(a, b) <==> ComesFirst(a, b)
  {
    if a != "" && b != "" {
      if a[0] == b[0] {
        SameHead(a, b);
        StringLeIsLexicographic(a[1..], b[1..]);
      } else {
        OtherHead(a, b);
      }
    }
  }

  // `a` stands before `b`.
  ghost predicate IsBefore<T>(a: T, b: T, s: seq<T>) {
    exists i, j | 0 <= i < j < |s| :: s[i] == a && s[j] == b
  }

  lemma {:induction false} InsertedBefore<T>(le: (T, T) -> bool, x: T, s: seq<T>, b: T)
    requires b in s && le(x, b)
    ensures IsBefore(x, b, Insert(le, x, s))
  {
    if le(x, s[0]) {
      var j :| 0 <= j < |s| && s[j] == b;
      assert ([x] + s)[0] == x && ([x] + s)[j + 1] == b;
    } else {
      assert b in s[1..];
      InsertedBefore(le, x, s[1..], b);
      BeforeLater(s[0], x, b, Insert(le, x, s[1..]));
    }
  }

  lemma BeforeLater<T>(head: T, a: T, b: T, s: seq<T>)
    requires IsBefore(a, b, s)
    ensures IsBefore(a, b, [head] + s)
  {
    var i, j :| 0 <= i < j < |s| && s[i] == a && s[j] == b;
    assert ([head] + s)[i + 1] == a && ([head] + s)[j + 1] == b;
  }

  lemma {:induction false} InsertKeepsOrder<T>(le: (T, T) -> bool, x: T, s: seq<T>, a: T, b: T)
    requires IsBefore(a, b, s)
    ensures IsBefore(a, b, Insert(le, x, s))
  {
    if le(x, s[0]) {
      BeforeLater(x, a, b, s);
    } else {
      var i, j :| 0 <= i < j < |s| && s[i] == a && s[j] == b;
      var rest := Insert(le, x, s[1..]);
      if i == 0 {
        InsertKeepsElements(le, x, s[1..]);
        assert s[1..][j - 1] == b && b in s[1..] && b in multiset(s[1..]) && b in multiset(rest) && b in rest;
        var k :| 0 <= k < |rest| && rest[k] == b;
        assert ([s[0]] + rest)[0] == a && ([s[0]] + rest)[k + 1] == b;
      } else {
        assert s[1..][i - 1] == a && s[1..][j - 1] == b;
        InsertKeepsOrder(le, x, s[1..], a, b);
        BeforeLater(s[0], a, b, rest);
      }
    }
  }

  // Sorting is stable: of two elements that are in order already, the first stays before the second.
  lemma {:induction false} SortIsStable<T>(le: (T, T) -> bool, s: seq<T>, a: T, b: T)
    requires IsBefore(a, b, s) && le(a, b)
    ensures IsBefore(a, b, Sort(le, s))
  {
    var i, j :| 0 <= i < j < |s| && s[i] == a && s[j] == b;
    if i == 0 {
      SortKeepsElements(le, s[1..]);
      assert s[1..][j - 1] == b;
      InsertedBefore(le, a, Sort(le, s[1..]), b);
    } else {
      assert s[1..][i - 1] == a && s[1..][j - 1] == b;
      SortIsStable(le, s[1..], a, b);
      InsertKeepsOrder(le, s[0], Sort(le, s[1..]), a, b);
    }
  }

  lemma {:induction false} StringLeIsTotal(a: string, b: string)
    ensures StringLe(a, b) || StringLe(b, a)
    ensures StringLe(a, b) && StringLe(b, a) ==> a == b
  {
    if a != "" && b != "" && a[0] == b[0] {
      StringLeIsTotal(a[1..], b[1..]);
      assert a == [a[0]] + a[1..] && b == [b[0]] + b[1..];
    }
  }

  lemma {:induction false} StringLeIsTransitive(a: string, b: string, c: string)
    requires StringLe(a, b) && StringLe(b, c)
    ensures StringLe(a, c)
  {
    if a != "" && a[0] == b[0] == c[0] {
      StringLeIsTransitive(a[1..], b[1..], c[1..]);
    }
  }

  lemma StringLeIsPreorder()
    ensures IsPreorder(StringLe) && IsAntisymmetric(StringLe)
  {
    forall a: string, b: string
      ensures StringLe(a, b) || StringLe(b, a)
      ensures StringLe(a, b) && StringLe(b, a) ==> a == b
    {
      StringLeIsTotal(a, b);
    }
    forall a: string, b: string, c: string | StringLe(a, b) && StringLe(b, c)
      ensures StringLe(a, c)
    {
      StringLeIsTransitive(a, b, c);
    }
  }
}
