// What the bill of a trace depends on: which records there are, and neither in which order nor how
// often they are written.
module TraceLaws {
  import opened Wrappers
  import opened Sequences
  import opened AttemptPolicy
  import opened TraceBilling

  // -- the snapshot of a request --------------------------------------------------------------------

  // A request is left with the latest of its records that have the most output.
  lemma {:induction false} FinalIsLatestMaximum(records: seq<Record>, id: string) returns (i: nat)
    ensures Final(records, id).Some? <==> exists r <- records :: r.id == id
    ensures Final(records, id).Some? ==>
              && i < |records| && records[i] == Record(id, Final(records, id).value)
              && (forall j | 0 <= j < |records| && records[j].id == id ::
                 records[j].usage.output <= records[i].usage.output)
              && (forall j | i < j < |records| && records[j].id == id ::
                 records[j].usage.output < records[i].usage.output)
  {
    i := 0;
    if records != [] {
      var n := |records| - 1;
      var before := FinalIsLatestMaximum(records[..n], id);
      assert records == records[..n] + [records[n]];
      assert forall j | 0 <= j < n :: records[..n][j] == records[j];
      i := if records[n].id == id && Final(records, id) == Some(records[n].usage)
              && (Final(records[..n], id).None? || records[n].usage.output >= Final(records[..n], id).value.output)
           then n else before;
    }
  }

  // No record of the request of `r` reports more output.
  ghost predicate IsTop(r: Record, records: seq<Record>) {
    forall x <- records :: x.id == r.id ==> x.usage.output <= r.usage.output
  }

  // The records of a request that report its largest output report the same usage.
  ghost predicate TopTiesAgree(records: seq<Record>) {
    forall r <- records, q <- records :: r.id == q.id && IsTop(r, records) && IsTop(q, records) ==> r.usage == q.usage
  }

  lemma FinalIsTop(records: seq<Record>, id: string)
    ensures Final(records, id).Some? <==> exists r <- records :: r.id == id
    ensures Final(records, id).Some? ==>
              Record(id, Final(records, id).value) in records && IsTop(Record(id, Final(records, id).value), records)
  {
    var i := FinalIsLatestMaximum(records, id);
    if Final(records, id).Some? {
      assert records[i] in records;
    }
  }

  lemma FinalReadsRecordsOnly(a: seq<Record>, b: seq<Record>, id: string)
    requires TopTiesAgree(a) && forall r :: r in a <==> r in b
    ensures Final(a, id) == Final(b, id)
  {
    FinalIsTop(a, id);
    FinalIsTop(b, id);
  }

  // -- sums that do not depend on order ---------------------------------------------------------------

  lemma {:induction false} SumRequestsConcat(a: seq<string>, b: seq<string>, records: seq<Record>, field: Field)
    ensures SumRequests(a + b, records, field) == SumRequests(a, records, field) + SumRequests(b, records, field)
  {
    if a == [] {
      assert a + b == b;
    } else {
      assert (a + b)[1..] == a[1..] + b;
      SumRequestsConcat(a[1..], b, records, field);
    }
  }

  lemma {:induction false} SumRequestsPermutes(a: seq<string>, b: seq<string>, records: seq<Record>, field: Field)
    requires Distinct(a) && Distinct(b) && forall id :: id in a <==> id in b
    ensures SumRequests(a, records, field) == SumRequests(b, records, field)
  {
    FirstIsIn(b);
    if a != [] {
      DistinctFromHead(a);
      assert a[0] in b;
      var j :| 0 <= j < |b| && b[j] == a[0];
      var rest := b[..j] + b[j + 1..];
      assert a == [a[0]] + a[1..] && b == b[..j] + ([b[j]] + b[j + 1..]);
      RestIsDistinct(b, j);
      forall id
        ensures id in a[1..] <==> id in rest
      {
        assert id in a <==> id == a[0] || id in a[1..];
        assert id in b <==> id == b[j] || id in rest;
      }
      SumRequestsPermutes(a[1..], rest, records, field);
      SumRequestsConcat(b[..j], [b[j]] + b[j + 1..], records, field);
      SumRequestsConcat(b[..j], b[j + 1..], records, field);
      assert ([b[j]] + b[j + 1..])[1..] == b[j + 1..];
    }
  }

  lemma RestIsDistinct(s: seq<string>, j: nat)
    requires Distinct(s) && j < |s|
    ensures Distinct(s[..j] + s[j + 1..]) && s[j] !in s[..j] + s[j + 1..]
  {
  }

  lemma {:induction false} SumRequestsOfSameFinals(ids: seq<string>, a: seq<Record>, b: seq<Record>, field: Field)
    requires forall id :: Final(a, id) == Final(b, id)
    ensures SumRequests(ids, a, field) == SumRequests(ids, b, field)
  {
    if ids != [] {
      assert Final(a, ids[0]) == Final(b, ids[0]);
      SumRequestsOfSameFinals(ids[1..], a, b, field);
    }
  }

  lemma SameFinalsSameRequests(a: seq<Record>, b: seq<Record>, field: Field)
    requires forall id :: Final(a, id) == Final(b, id)
    ensures SumRequests(Ids(a), a, field) == SumRequests(Ids(b), b, field) && |Ids(a)| == |Ids(b)|
  {
    forall id
      ensures id in Ids(a) <==> id in Ids(b)
      ensures Distinct(Ids(a)) && Distinct(Ids(b))
    {
      IdsAre(a, id);
      IdsAre(b, id);
    }
    IdsAre(a, "");
    IdsAre(b, "");
    SameLength(Ids(a), Ids(b));
    SumRequestsPermutes(Ids(a), Ids(b), a, field);
    SumRequestsOfSameFinals(Ids(b), a, b, field);
  }

  // -- lines --------------------------------------------------------------------------------------------

  function LineRecords(line: Line): seq<Record> {
    if IsKeyed(line) then [Record(RequestKey(line.entry).value, UsageOf(line))] else []
  }

  lemma {:induction false} LinesConcat(a: seq<Line>, b: seq<Line>)
    ensures Records(a + b) == Records(a) + Records(b)
    ensures Keyless(a + b) == Keyless(a) + Keyless(b)
  {
    if b == [] {
      assert a + b == a;
    } else {
      var n := |b| - 1;
      assert (a + b)[..|a + b| - 1] == a + b[..n];
      LinesConcat(a, b[..n]);
    }
  }

  lemma LinesAround(a: seq<Line>, line: Line, b: seq<Line>)
    ensures Records(a + [line] + b) == Records(a) + LineRecords(line) + Records(b)
    ensures Keyless(a + [line] + b) == Keyless(a) + (if IsKeyless(line) then [UsageOf(line)] else []) + Keyless(b)
    ensures Records(a + b) == Records(a) + Records(b) && Keyless(a + b) == Keyless(a) + Keyless(b)
  {
    LinesConcat(a + [line], b);
    LinesConcat(a, b);
    RecordsOfLine(a, line);
  }

  lemma {:induction false} SumUsagesConcat(a: seq<Usage>, b: seq<Usage>, field: Field)
    ensures SumUsages(a + b, field) == SumUsages(a, field) + SumUsages(b, field)
  {
    if a == [] {
      assert a + b == b;
    } else {
      assert (a + b)[1..] == a[1..] + b;
      SumUsagesConcat(a[1..], b, field);
    }
  }

  lemma {:induction false} KeylessPermutes(a: seq<Line>, b: seq<Line>, field: Field)
    requires multiset(a) == multiset(b)
    ensures SumUsages(Keyless(a), field) == SumUsages(Keyless(b), field) && |Keyless(a)| == |Keyless(b)|
    decreases |a|
  {
    assert |multiset(a)| == |a| && |multiset(b)| == |b|;
    if a != [] {
      var j := FindHead(a, b);
      KeylessPermutes(a[1..], b[..j] + b[j + 1..], field);
      KeylessWithoutOne(a, 0, field);
      KeylessWithoutOne(b, j, field);
      assert a[..0] + a[1..] == a[1..];
    }
  }

  lemma KeylessWithoutOne(s: seq<Line>, j: nat, field: Field)
    requires j < |s|
    ensures SumUsages(Keyless(s), field)
         == SumUsages(Keyless(s[..j] + s[j + 1..]), field) + (if IsKeyless(s[j]) then field(UsageOf(s[j])) else 0)
    ensures |Keyless(s)| == |Keyless(s[..j] + s[j + 1..])| + (if IsKeyless(s[j]) then 1 else 0)
  {
    assert s == s[..j] + [s[j]] + s[j + 1..];
    KeylessWithout(s[..j], s[j], s[j + 1..], field);
  }

  lemma KeylessWithout(a: seq<Line>, line: Line, b: seq<Line>, field: Field)
    ensures SumUsages(Keyless(a + [line] + b), field)
         == SumUsages(Keyless(a + b), field) + (if IsKeyless(line) then field(UsageOf(line)) else 0)
    ensures |Keyless(a + [line] + b)| == |Keyless(a + b)| + (if IsKeyless(line) then 1 else 0)
  {
    LinesAround(a, line, b);
    var one := if IsKeyless(line) then [UsageOf(line)] else [];
    SumUsagesConcat(Keyless(a) + one, Keyless(b), field);
    SumUsagesConcat(Keyless(a), one, field);
    SumUsagesConcat(Keyless(a), Keyless(b), field);
  }

  lemma {:induction false} RecordsAre(lines: seq<Line>, r: Record)
    ensures r in Records(lines) <==> exists line <- lines :: IsKeyed(line) && LineRecords(line) == [r]
  {
    if lines != [] {
      var n := |lines| - 1;
      RecordsAre(lines[..n], r);
      assert lines == lines[..n] + [lines[n]];
    }
  }

  // -- the bill --------------------------------------------------------------------------------------------

  lemma BillIsOfFinals(a: seq<Line>, b: seq<Line>)
    requires forall id :: Final(Records(a), id) == Final(Records(b), id)
    requires forall field: Field :: SumUsages(Keyless(a), field) == SumUsages(Keyless(b), field)
    requires |Keyless(a)| == |Keyless(b)|
    ensures BillOf(a) == BillOf(b)
  {
    SameFinalsSameRequests(Records(a), Records(b), INPUT);
    SameFinalsSameRequests(Records(a), Records(b), OUTPUT);
    SameFinalsSameRequests(Records(a), Records(b), CACHE_WRITE);
    SameFinalsSameRequests(Records(a), Records(b), CACHE_READ);
  }

  lemma SameLinesSameRecords(a: seq<Line>, b: seq<Line>)
    requires multiset(a) == multiset(b)
    ensures forall r :: r in Records(a) <==> r in Records(b)
  {
    forall line
      ensures line in a <==> line in b
    {
      assert line in multiset(a) <==> line in multiset(b);
    }
    forall r
      ensures r in Records(a) <==> r in Records(b)
    {
      RecordsAre(a, r);
      RecordsAre(b, r);
    }
  }

  // Where top ties agree, the lines of a trace may come in any order.
  lemma BillIsOrderIndependent(a: seq<Line>, b: seq<Line>)
    requires multiset(a) == multiset(b) && TopTiesAgree(Records(a))
    ensures BillOf(a) == BillOf(b)
  {
    SameLinesSameRecords(a, b);
    forall id
      ensures Final(Records(a), id) == Final(Records(b), id)
    {
      FinalReadsRecordsOnly(Records(a), Records(b), id);
    }
    forall field: Field
      ensures SumUsages(Keyless(a), field) == SumUsages(Keyless(b), field)
    {
      KeylessPermutes(a, b, field);
    }
    KeylessPermutes(a, b, INPUT);
    BillIsOfFinals(a, b);
  }

  // A request is billed once however many lines announce it: repeating one changes nothing.
  lemma RepeatingIsFree(a: seq<Line>, line: Line, b: seq<Line>)
    requires IsKeyed(line) && line in a + b && TopTiesAgree(Records(a + b))
    ensures BillOf(a + [line] + b) == BillOf(a + b)
  {
    var more, fewer := a + [line] + b, a + b;
    LinesAround(a, line, b);
    RecordsAre(fewer, LineRecords(line)[0]);
    assert forall r :: r in Records(more) <==> r in Records(fewer);
    forall id
      ensures Final(Records(more), id) == Final(Records(fewer), id)
    {
      FinalReadsRecordsOnly(Records(fewer), Records(more), id);
    }
    KeylessUnchanged(a, line, b);
    BillIsOfFinals(more, fewer);
  }

  lemma KeylessUnchanged(a: seq<Line>, line: Line, b: seq<Line>)
    requires !IsKeyless(line)
    ensures Keyless(a + [line] + b) == Keyless(a + b)
  {
    LinesAround(a, line, b);
    assert Keyless(a) + [] == Keyless(a);
  }

  // An error record with no output, wherever it is written, does not erase what a request has used.
  lemma ZeroOutputIsFree(a: seq<Line>, line: Line, b: seq<Line>)
    requires IsKeyed(line) && UsageOf(line).output == 0
    requires forall r <- Records(a + b) :: r.usage.output >= 0
    requires var final := Final(Records(a + b), RequestKey(line.entry).value); final.Some? && final.value.output > 0
    ensures BillOf(a + [line] + b) == BillOf(a + b)
  {
    var more, fewer := a + [line] + b, a + b;
    LinesAround(a, line, b);
    var zero := LineRecords(line)[0];
    assert Records(more) == Records(a) + [zero] + Records(b);
    forall id
      ensures Final(Records(more), id) == Final(Records(fewer), id)
    {
      FinalSkipsZero(Records(a), zero, Records(b), id);
    }
    KeylessUnchanged(a, line, b);
    BillIsOfFinals(more, fewer);
  }

  predicate HasOutput(final: Option<Usage>) {
    final.Some? && final.value.output > 0
  }

  lemma {:induction false} FinalSkipsZero(a: seq<Record>, zero: Record, b: seq<Record>, id: string)
    requires zero.usage.output == 0 && forall r <- a + b :: r.usage.output >= 0
    ensures id != zero.id || HasOutput(Final(a + b, id)) ==> Final(a + [zero] + b, id) == Final(a + b, id)
    ensures id == zero.id && !HasOutput(Final(a + b, id)) ==>
              Final(a + [zero] + b, id).Some? && Final(a + [zero] + b, id).value.output == 0
  {
    if b == [] {
      assert a + [zero] + b == a + [zero] && a + b == a;
      FinalOfRecord(a, zero, id);
      FinalIsSomeRecord(a, id);
    } else {
      var n := |b| - 1;
      var r, init := b[n], b[..n];
      assert b == init + [r] && a + [zero] + b == (a + [zero] + init) + [r] && a + b == (a + init) + [r];
      assert r in a + b;
      FinalSkipsZero(a, zero, init, id);
      FinalOfRecord(a + [zero] + init, r, id);
      FinalOfRecord(a + init, r, id);
      FinalIsSomeRecord(a + init, id);
    }
  }

  lemma FinalIsSomeRecord(records: seq<Record>, id: string)
    requires forall r <- records :: r.usage.output >= 0
    ensures Final(records, id).Some? ==> Final(records, id).value.output >= 0
  {
    var i := FinalIsLatestMaximum(records, id);
    assert Final(records, id).Some? ==> records[i] in records;
  }

  // A line that names no request is billed once, as a request of its own.
  lemma KeylessIsBilledOnce(a: seq<Line>, line: Line, b: seq<Line>)
    requires IsKeyless(line)
    ensures var u, less := UsageOf(line), BillOf(a + b);
            BillOf(a + [line] + b) == Bill(less.input + u.input, less.output + u.output, less.cacheWrite + u.cacheWrite,
                                           less.cacheRead + u.cacheRead, less.requests + 1)
  {
    LinesAround(a, line, b);
    assert Records(a) + [] == Records(a);
    KeylessWithout(a, line, b, INPUT);
    KeylessWithout(a, line, b, OUTPUT);
    KeylessWithout(a, line, b, CACHE_WRITE);
    KeylessWithout(a, line, b, CACHE_READ);
  }

  // -- where the order matters -----------------------------------------------------------------------------

  lemma {:induction false} OneRequestDiffers(ids: seq<string>, a: seq<Record>, b: seq<Record>, id: string, field: Field)
    requires Distinct(ids) && forall other | other != id :: Final(a, other) == Final(b, other)
    ensures SumRequests(ids, a, field) - (if id in ids then OfRequest(a, id, field) else 0)
         == SumRequests(ids, b, field) - (if id in ids then OfRequest(b, id, field) else 0)
  {
    if ids != [] {
      DistinctFromHead(ids);
      assert ids == [ids[0]] + ids[1..];
      assert ids[0] != id ==> Final(a, ids[0]) == Final(b, ids[0]);
      OneRequestDiffers(ids[1..], a, b, id, field);
    }
  }

  lemma TotalSeesFinal(a: seq<Line>, b: seq<Line>, id: string, field: Field)
    requires forall other | other != id :: Final(Records(a), other) == Final(Records(b), other)
    requires Final(Records(a), id).Some? && Final(Records(b), id).Some?
    requires Keyless(a) == Keyless(b)
    ensures Total(a, field) - field(Final(Records(a), id).value) == Total(b, field) - field(Final(Records(b), id).value)
  {
    var r, q := Records(a), Records(b);
    IdsAre(r, id);
    IdsAre(q, id);
    forall other
      ensures other in Ids(r) <==> other in Ids(q)
    {
      IdsAre(r, other);
      IdsAre(q, other);
    }
    SumRequestsPermutes(Ids(r), Ids(q), q, field);
    OneRequestDiffers(Ids(r), r, q, id, field);
  }

  // A bill shows what every single request was left with.
  lemma BillSeesFinal(a: seq<Line>, b: seq<Line>, id: string)
    requires forall other | other != id :: Final(Records(a), other) == Final(Records(b), other)
    requires Final(Records(a), id).Some? && Final(Records(b), id).Some?
    requires Keyless(a) == Keyless(b) && BillOf(a) == BillOf(b)
    ensures Final(Records(a), id) == Final(Records(b), id)
  {
    var u, v := Final(Records(a), id).value, Final(Records(b), id).value;
    SameTotals(a, b);
    TotalSeesFinal(a, b, id, INPUT);
    TotalSeesFinal(a, b, id, OUTPUT);
    TotalSeesFinal(a, b, id, CACHE_WRITE);
    TotalSeesFinal(a, b, id, CACHE_READ);
    SameFields(u, v);
  }

  lemma SameTotals(a: seq<Line>, b: seq<Line>)
    requires BillOf(a) == BillOf(b)
    ensures Total(a, INPUT) == Total(b, INPUT) && Total(a, OUTPUT) == Total(b, OUTPUT)
    ensures Total(a, CACHE_WRITE) == Total(b, CACHE_WRITE) && Total(a, CACHE_READ) == Total(b, CACHE_READ)
  {
  }

  lemma SameFields(u: Usage, v: Usage)
    requires INPUT(u) == INPUT(v) && OUTPUT(u) == OUTPUT(v) && CACHE_WRITE(u) == CACHE_WRITE(v)
             && CACHE_READ(u) == CACHE_READ(v)
    ensures u == v
  {
  }

  lemma FinalOfTop(records: seq<Record>, r: Record, id: string)
    requires IsTop(r, records)
    ensures Final(records + [r], id) == if id == r.id then Some(r.usage) else Final(records, id)
  {
    FinalOfRecord(records, r, id);
    FinalIsTop(records, id);
  }

  // After any other lines, the later of two top records is the one that is billed.
  lemma LastTieIsBilled(rest: seq<Line>, x: Line, y: Line)
    requires IsKeyed(x) && IsKeyed(y)
    requires var r, q := LineRecords(x)[0], LineRecords(y)[0];
             r.id == q.id && r.usage.output == q.usage.output && IsTop(r, Records(rest))
    ensures Final(Records(rest + [x] + [y]), LineRecords(y)[0].id) == Some(UsageOf(y))
    ensures forall other | other != LineRecords(y)[0].id ::
            Final(Records(rest + [x] + [y]), other) == Final(Records(rest), other)
    ensures Keyless(rest + [x] + [y]) == Keyless(rest)
  {
    var r, q := LineRecords(x)[0], LineRecords(y)[0];
    RecordsOfLine(rest, x);
    RecordsOfLine(rest + [x], y);
    assert IsTop(q, Records(rest) + [r]);
    forall other
      ensures Final(Records(rest) + [r] + [q], other)
           == if other == q.id then Some(q.usage) else Final(Records(rest), other)
    {
      FinalOfTop(Records(rest), r, other);
      FinalOfTop(Records(rest) + [r], q, other);
    }
    assert Keyless(rest) + [] == Keyless(rest);
  }

  // Two different lines of a trace, and what remains without them.
  lemma TakeTwo(a: seq<Line>, x: Line, y: Line) returns (rest: seq<Line>)
    requires x in a && y in a && x != y
    ensures multiset(rest + [x] + [y]) == multiset(a) && multiset(rest + [y] + [x]) == multiset(a)
    ensures forall line <- rest :: line in a
  {
    var b := TakeOne(a, x);
    assert y in multiset(b) + multiset{x};
    rest := TakeOne(b, y);
    assert multiset(rest + [x] + [y]) == multiset(rest) + multiset{x} + multiset{y};
    assert multiset(rest + [y] + [x]) == multiset(rest) + multiset{y} + multiset{x};
  }

  lemma TakeOne(a: seq<Line>, x: Line) returns (rest: seq<Line>)
    requires x in a
    ensures multiset(a) == multiset(rest) + multiset{x} && forall line <- rest :: line in a
  {
    var i :| 0 <= i < |a| && a[i] == x;
    rest := a[..i] + a[i + 1..];
    assert a == a[..i] + [x] + a[i + 1..];
  }

  // Two lines that disagree at the top of their request, in either order, are billed differently.
  lemma DisagreeingTiesAreSeen(a: seq<Line>, x: Line, y: Line) returns (b: seq<Line>, c: seq<Line>)
    requires x in a && y in a && IsKeyed(x) && IsKeyed(y)
    requires var r, q := LineRecords(x)[0], LineRecords(y)[0];
             r.id == q.id && IsTop(r, Records(a)) && IsTop(q, Records(a)) && r.usage != q.usage
    ensures multiset(b) == multiset(a) && multiset(c) == multiset(a) && BillOf(b) != BillOf(c)
  {
    var r, q := LineRecords(x)[0], LineRecords(y)[0];
    RecordsAre(a, r);
    RecordsAre(a, q);
    var rest := TakeTwo(a, x, y);
    forall z <- Records(rest)
      ensures z in Records(a)
    {
      RecordsAre(rest, z);
      RecordsAre(a, z);
    }
    assert IsTop(r, Records(rest)) && IsTop(q, Records(rest));
    LastTieIsBilled(rest, x, y);
    LastTieIsBilled(rest, y, x);
    b, c := rest + [x] + [y], rest + [y] + [x];
    if BillOf(b) == BillOf(c) {
      BillSeesFinal(b, c, r.id);
    }
  }

  ghost predicate EveryOrderBillsAlike(a: seq<Line>) {
    forall b: seq<Line> | multiset(b) == multiset(a) :: BillOf(b) == BillOf(a)
  }

  // The order of the lines matters exactly where records of one request that report its largest output
  // disagree otherwise; ties below the largest output are harmless.
  lemma TiesMatter(a: seq<Line>)
    ensures EveryOrderBillsAlike(a) <==> TopTiesAgree(Records(a))
  {
    if TopTiesAgree(Records(a)) {
      forall b: seq<Line> | multiset(b) == multiset(a)
        ensures BillOf(b) == BillOf(a)
      {
        BillIsOrderIndependent(a, b);
      }
    } else {
      var r, q :| r in Records(a) && q in Records(a) && r.id == q.id && IsTop(r, Records(a)) && IsTop(q, Records(a))
                  && r.usage != q.usage;
      RecordsAre(a, r);
      RecordsAre(a, q);
      var x :| x in a && IsKeyed(x) && LineRecords(x) == [r];
      var y :| y in a && IsKeyed(y) && LineRecords(y) == [q];
      var b, c := DisagreeingTiesAreSeen(a, x, y);
      assert BillOf(b) != BillOf(a) || BillOf(c) != BillOf(a);
    }
  }

  // Repeating lines is free in exactly the same traces.
  lemma RepeatingIsFreeExactly(a: seq<Line>)
    ensures (forall line <- a :: IsKeyed(line) ==> BillOf(a + [line]) == BillOf(a)) <==> TopTiesAgree(Records(a))
  {
    if TopTiesAgree(Records(a)) {
      forall line | line in a && IsKeyed(line)
        ensures BillOf(a + [line]) == BillOf(a)
      {
        assert a + [] == a && a + [line] + [] == a + [line];
        RepeatingIsFree(a, line, []);
      }
    } else {
      var r, q :| r in Records(a) && q in Records(a) && r.id == q.id && IsTop(r, Records(a)) && IsTop(q, Records(a))
                  && r.usage != q.usage;
      var p := if Final(Records(a), r.id) == Some(r.usage) then q else r;
      RecordsAre(a, p);
      var line :| line in a && IsKeyed(line) && LineRecords(line) == [p];
      RepeatedTopIsBilled(a, line);
      if BillOf(a + [line]) == BillOf(a) {
        FinalIsTop(Records(a), p.id);
        BillSeesFinal(a + [line], a, p.id);
      }
    }
  }

  lemma RepeatedTopIsBilled(a: seq<Line>, line: Line)
    requires IsKeyed(line) && IsTop(LineRecords(line)[0], Records(a))
    ensures Final(Records(a + [line]), LineRecords(line)[0].id) == Some(UsageOf(line))
    ensures forall other | other != LineRecords(line)[0].id ::
            Final(Records(a + [line]), other) == Final(Records(a), other)
    ensures Keyless(a + [line]) == Keyless(a)
  {
    RecordsOfLine(a, line);
    forall other
      ensures Final(Records(a) + LineRecords(line), other)
           == if other == LineRecords(line)[0].id then Some(UsageOf(line)) else Final(Records(a), other)
    {
      FinalOfTop(Records(a), LineRecords(line)[0], other);
    }
    assert Keyless(a) + [] == Keyless(a);
  }

  // -- when the attempt ran -------------------------------------------------------------------------------

  predicate IsDated(line: Line) {
    line.Object? && line.entry.timestamp.Some? && line.entry.timestamp.value != ""
  }

  // The timestamp of a trace is one of its lines' and none of its lines is later.
  lemma {:induction false} NewestIsLatest(lines: seq<Line>, instant: Instant)
    ensures Newest(lines, instant) == "" <==> forall line <- lines :: !IsDated(line)
    ensures Newest(lines, instant) != "" ==>
              exists line <- lines :: IsDated(line) && line.entry.timestamp.value == Newest(lines, instant)
    ensures forall line <- lines ::
            IsDated(line) ==> !MomentLt(instant(Newest(lines, instant)), instant(line.entry.timestamp.value))
  {
    if lines != [] {
      var n := |lines| - 1;
      NewestIsLatest(lines[..n], instant);
      assert lines == lines[..n] + [lines[n]];
      assert forall line <- lines[..n] :: line in lines;
      assert lines[n] in lines;
    }
  }
}
