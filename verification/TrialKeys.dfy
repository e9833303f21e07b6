// The printed key of a trial, by which a capsule recognizes duplicates, and exactly which trials
// it cannot tell apart.
module TrialKeys {
  import opened Receipts

  function Decimal(n: nat): string {
    if n < 10 then [Digit(n)] else Decimal(n / 10) + [Digit(n % 10)]
  }

  function Digit(n: nat): char
    requires n < 10
  {
    "0123456789"[n]
  }

  function Number(i: int): string {
    if i < 0 then "-" + Decimal(-i) else Decimal(i)
  }

  function Stem(t: TrialID): string {
    t.study + "/" + (t.task + "/" + t.arm)
  }

  function KeyOf(t: TrialID): string {
    Stem(t) + "/" + ("rep" + Number(t.repetition)) + "/" + ("att" + Number(t.attempt))
  }

  predicate HasNoSlash(s: string) {
    '/' !in s
  }

  lemma {:induction false} DecimalHasDigitsOnly(n: nat)
    ensures Decimal(n) != "" && forall c <- Decimal(n) :: '0' <= c <= '9'
    decreases n
  {
    if n >= 10 {
      DecimalHasDigitsOnly(n / 10);
    }
  }

  // The number that a text of digits denotes.
  function ValueOf(digits: string): int {
    if digits == "" then 0
    else 10 * ValueOf(digits[..|digits| - 1]) + (digits[|digits| - 1] as int - '0' as int)
  }

  lemma DigitDenotes(n: nat)
    requires n < 10
    ensures Digit(n) as int - '0' as int == n
  {
  }

  lemma {:induction false} DecimalDenotes(n: nat)
    ensures ValueOf(Decimal(n)) == n && (n > 0 ==> Decimal(n)[0] != '0')
    decreases n
  {
    DecimalHasDigitsOnly(n);
    if n < 10 {
      DigitDenotes(n);
      assert Decimal(n)[..0] == "";
    } else {
      DecimalDenotes(n / 10);
      DigitDenotes(n % 10);
      DecimalHasDigitsOnly(n / 10);
      assert Decimal(n)[..|Decimal(n)| - 1] == Decimal(n / 10);
    }
  }

  // A key spells the five parts of its trial, the numbers in decimal and without leading zeros.
  lemma KeySpells(t: TrialID) returns (repetition: string, attempt: string)
    requires t.repetition > 0 && t.attempt > 0
    ensures KeyOf(t) == t.study + "/" + (t.task + "/" + t.arm) + "/" + ("rep" + repetition) + "/" + ("att" + attempt)
    ensures repetition != "" && repetition[0] != '0' && ValueOf(repetition) == t.repetition
    ensures attempt != "" && attempt[0] != '0' && ValueOf(attempt) == t.attempt
  {
    repetition, attempt := Decimal(t.repetition), Decimal(t.attempt);
    DecimalDenotes(t.repetition);
    DecimalDenotes(t.attempt);
    DecimalHasDigitsOnly(t.repetition);
    DecimalHasDigitsOnly(t.attempt);
  }

  lemma DigitIsInjective(m: nat, n: nat)
    requires m < 10 && n < 10 && Digit(m) == Digit(n)
    ensures m == n
  {
  }

  lemma {:induction false} DecimalIsInjective(m: nat, n: nat)
    requires Decimal(m) == Decimal(n)
    ensures m == n
    decreases m
  {
    DecimalHasDigitsOnly(m / 10);
    DecimalHasDigitsOnly(n / 10);
    var a, b := Decimal(m), Decimal(n);
    assert a[|a| - 1] == Digit(m % 10) && b[|b| - 1] == Digit(n % 10);
    DigitIsInjective(m % 10, n % 10);
    if m >= 10 && n >= 10 {
      assert Decimal(m / 10) == a[..|a| - 1] == b[..|b| - 1] == Decimal(n / 10);
      DecimalIsInjective(m / 10, n / 10);
    }
  }

  lemma NumberIsInjective(i: int, j: int)
    requires Number(i) == Number(j)
    ensures i == j
  {
    var a, b := if i < 0 then -i else i, if j < 0 then -j else j;
    DecimalHasDigitsOnly(a);
    DecimalHasDigitsOnly(b);
    assert Decimal(a)[0] in Decimal(a) && Decimal(b)[0] in Decimal(b);
    assert (i < 0) == (j < 0);
    if i < 0 {
      assert Decimal(a) == Number(i)[1..] && Decimal(b) == Number(j)[1..];
    }
    DecimalIsInjective(a, b);
  }

  lemma NumberHasNoSlash(i: int)
    ensures HasNoSlash(Number(i))
  {
    DecimalHasDigitsOnly(if i < 0 then -i else i);
  }

  // Texts are equal up to the last slash and after it.
  lemma LastSlash(a: string, u: string, b: string, v: string)
    requires HasNoSlash(u) && HasNoSlash(v) && a + "/" + u == b + "/" + v
    ensures a == b && u == v
  {
    LastSlashComesLast(a, u, b, v);
    LastSlashComesLast(b, v, a, u);
    var all := a + "/" + u;
    assert a == all[..|a|] == b;
    assert u == all[|a| + 1..] == v;
  }

  lemma LastSlashComesLast(a: string, u: string, b: string, v: string)
    requires HasNoSlash(v) && a + "/" + u == b + "/" + v
    ensures |a| <= |b|
  {
    var all := b + "/" + v;
    assert (a + "/" + u)[|a|] == '/';
    assert forall i | |b| < i < |all| :: all[i] == v[i - |b| - 1] && v[i - |b| - 1] in v;
  }

  // Texts are equal up to the first slash and after it.
  lemma FirstSlash(a: string, u: string, b: string, v: string)
    requires HasNoSlash(a) && HasNoSlash(b) && a + "/" + u == b + "/" + v
    ensures a == b && u == v
  {
    FirstSlashComesFirst(a, u, b, v);
    FirstSlashComesFirst(b, v, a, u);
    var all := a + "/" + u;
    assert a == all[..|a|] == b;
    assert u == all[|a| + 1..] == v;
  }

  lemma FirstSlashComesFirst(a: string, u: string, b: string, v: string)
    requires HasNoSlash(b) && a + "/" + u == b + "/" + v
    ensures |b| <= |a|
  {
    var all := b + "/" + v;
    assert (a + "/" + u)[|a|] == '/';
    assert forall i | 0 <= i < |b| :: all[i] == b[i] && b[i] in b;
  }

  // Two trials have the same key exactly if their repetition, their attempt and the text that
  // joins their study, task and arm agree.
  lemma KeysAgreeExactly(t: TrialID, u: TrialID)
    ensures KeyOf(t) == KeyOf(u) <==>
            t.repetition == u.repetition && t.attempt == u.attempt && Stem(t) == Stem(u)
  {
    if KeyOf(t) == KeyOf(u) {
      var rt, ru := "rep" + Number(t.repetition), "rep" + Number(u.repetition);
      var at, au := "att" + Number(t.attempt), "att" + Number(u.attempt);
      NumberHasNoSlash(t.repetition);
      NumberHasNoSlash(u.repetition);
      NumberHasNoSlash(t.attempt);
      NumberHasNoSlash(u.attempt);
      LastSlash(Stem(t) + "/" + rt, at, Stem(u) + "/" + ru, au);
      LastSlash(Stem(t), rt, Stem(u), ru);
      assert Number(t.repetition) == rt[3..] == ru[3..] == Number(u.repetition);
      assert Number(t.attempt) == at[3..] == au[3..] == Number(u.attempt);
      NumberIsInjective(t.repetition, u.repetition);
      NumberIsInjective(t.attempt, u.attempt);
    }
  }

  predicate IsSlashFree(t: TrialID) {
    HasNoSlash(t.study) && HasNoSlash(t.task) && HasNoSlash(t.arm)
  }

  // Keys identify trials whose names contain no slash.
  lemma SlashFreeKeysAreUnique(t: TrialID, u: TrialID)
    requires IsSlashFree(t) && IsSlashFree(u)
    ensures KeyOf(t) == KeyOf(u) <==> t == u
  {
    KeysAgreeExactly(t, u);
    if KeyOf(t) == KeyOf(u) {
      FirstSlash(t.study, t.task + "/" + t.arm, u.study, u.task + "/" + u.arm);
      FirstSlash(t.task, t.arm, u.task, u.arm);
    }
  }

  // With a slash in a name, two trials of one study can share a key.
  lemma SlashedKeysCollide()
    ensures var t, u := TrialID("s", "a/b", "c", 1, 1), TrialID("s", "a", "b/c", 1, 1);
            t != u && KeyOf(t) == KeyOf(u)
  {
    var t, u := TrialID("s", "a/b", "c", 1, 1), TrialID("s", "a", "b/c", 1, 1);
    assert "a/b" + "/" + "c" == "a/b/c" == "a" + "/" + "b/c";
    KeysAgreeExactly(t, u);
    assert t.task[1] == '/';
  }
}
