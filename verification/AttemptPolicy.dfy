// The one order in which every report picks an attempt: dated attempts before undated ones, then the
// instant, then the directory of the run.
module AttemptPolicy {
  import opened Sorting

  // What the parser of timestamps makes of a text: (0, seconds), or (1, 0) when it is not one.
  datatype Moment = Moment(flag: int, at: real)

  // Turns the text of a timestamp into a moment; the parser itself is not modelled.
  type Instant = string -> Moment

  datatype SortKey = SortKey(flag: int, moment: Moment, runDir: string)

  function AttemptSortKey(timestamp: string, runDir: string, instant: Instant): SortKey {
    SortKey(instant(timestamp).flag, instant(timestamp), runDir)
  }

  // Tuples compare component by component.
  predicate KeyLe(a: SortKey, b: SortKey) {
    if a.flag != b.flag then a.flag < b.flag
    else if a.moment.flag != b.moment.flag then a.moment.flag < b.moment.flag
    else if a.moment.at != b.moment.at then a.moment.at < b.moment.at
    else StringLe(a.runDir, b.runDir)
  }

  lemma KeyLeIsTotal(a: SortKey, b: SortKey)
    ensures KeyLe(a, b) || KeyLe(b, a)
    ensures KeyLe(a, b) && KeyLe(b, a) ==> a == b
  {
    StringLeIsTotal(a.runDir, b.runDir);
  }

  lemma KeyLeIsTransitive(a: SortKey, b: SortKey, c: SortKey)
    requires KeyLe(a, b) && KeyLe(b, c)
    ensures KeyLe(a, c)
  {
    if a.runDir != b.runDir && b.runDir != c.runDir && StringLe(a.runDir, b.runDir) && StringLe(b.runDir, c.runDir) {
      StringLeIsTransitive(a.runDir, b.runDir, c.runDir);
    }
  }

  // The first of the attempts whose key is least, as `min` finds it.
  function Earliest<T>(attempts: seq<T>, key: T -> SortKey): T
    requires attempts != []
  {
    if |attempts| == 1 then attempts[0]
    else
      var later := Earliest(attempts[1..], key);
      if KeyLe(key(attempts[0]), key(later)) then attempts[0] else later
  }

  lemma {:induction false} EarliestIsLeast<T>(attempts: seq<T>, key: T -> SortKey)
    requires attempts != []
    ensures Earliest(attempts, key) in attempts
    ensures forall a <- attempts :: KeyLe(key(Earliest(attempts, key)), key(a))
  {
    KeyLeIsTotal(key(attempts[0]), key(attempts[0]));
    if |attempts| > 1 {
      var rest := attempts[1..];
      EarliestIsLeast(rest, key);
      var later := Earliest(rest, key);
      KeyLeIsTotal(key(attempts[0]), key(later));
      forall a <- attempts
        ensures KeyLe(key(Earliest(attempts, key)), key(a))
      {
        if a != attempts[0] {
          assert a in rest;
          if KeyLe(key(attempts[0]), key(later)) {
            KeyLeIsTransitive(key(attempts[0]), key(later), key(a));
          }
        }
      }
    }
  }

  // What the order of keys says of two attempts: the one that can be dated comes first, then the earlier one,
  // then, at the same moment, the one whose directory is the smaller text.
  lemma KeysAreChronological(stamp: string, dir: string, stamp': string, dir': string, instant: Instant)
    ensures var m, m' := instant(stamp), instant(stamp');
            KeyLe(AttemptSortKey(stamp, dir, instant), AttemptSortKey(stamp', dir', instant)) <==>
            m.flag < m'.flag || (m.flag == m'.flag && (m.at < m'.at || (m.at == m'.at && ComesFirst(dir, dir'))))
  {
    StringLeIsLexicographic(dir, dir');
  }

  // The attempt at `i` has a key that no attempt before it has.
  predicate IsFirstOfItsKey<T>(attempts: seq<T>, key: T -> SortKey, i: nat)
    requires i < |attempts|
  {
    forall j | 0 <= j < i :: key(attempts[j]) != key(attempts[i])
  }

  // Of several attempts with the least key it is the first.
  lemma {:induction false} EarliestIsFirst<T>(attempts: seq<T>, key: T -> SortKey) returns (i: nat)
    requires attempts != []
    ensures i < |attempts| && attempts[i] == Earliest(attempts, key) && IsFirstOfItsKey(attempts, key, i)
  {
    if |attempts| == 1 {
      i := 0;
    } else {
      var rest := attempts[1..];
      var k := EarliestIsFirst(rest, key);
      KeyLeIsTotal(key(attempts[0]), key(rest[k]));
      if KeyLe(key(attempts[0]), key(rest[k])) {
        i := 0;
      } else {
        i := k + 1;
        assert forall j | 0 < j < i :: attempts[j] == rest[j - 1];
      }
    }
  }

  ghost function KeysOf<T(!new)>(attempts: seq<T>, key: T -> SortKey): set<SortKey> {
    set a | a in attempts :: key(a)
  }

  lemma {:induction false} EarliestHasLeastKey<T(!new)>(attempts: seq<T>, key: T -> SortKey)
    requires attempts != []
    ensures key(Earliest(attempts, key)) in KeysOf(attempts, key)
    ensures forall k <- KeysOf(attempts, key) :: KeyLe(key(Earliest(attempts, key)), k)
  {
    EarliestIsLeast(attempts, key);
  }

  // The choice depends on which keys there are and on nothing else: two readers of the same cell,
  // whatever else they know of an attempt and in whatever order they come upon it, agree.
  lemma SameKeysSameChoice<T(!new), U(!new)>(a: seq<T>, f: T -> SortKey, b: seq<U>, g: U -> SortKey)
    requires a != [] && b != [] && KeysOf(a, f) == KeysOf(b, g)
    ensures f(Earliest(a, f)) == g(Earliest(b, g))
  {
    EarliestHasLeastKey(a, f);
    EarliestHasLeastKey(b, g);
    KeyLeIsTotal(f(Earliest(a, f)), g(Earliest(b, g)));
  }

  // Dated attempts always win over undated ones.
  lemma DatedBeforeUndated<T>(attempts: seq<T>, key: T -> SortKey, dated: T)
    requires dated in attempts
    requires forall a <- attempts :: key(a).flag == 0 || key(a).flag == 1
    requires key(dated).flag == 0
    ensures key(Earliest(attempts, key)).flag == 0
  {
    EarliestIsLeast(attempts, key);
  }
}
