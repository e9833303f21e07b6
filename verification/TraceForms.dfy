// The scan of a trace line by line: what each kind of line adds to the bill, which line names the model
// and which one dates the run.
module TraceForms {
  import opened Wrappers
  import opened AttemptPolicy
  import opened TraceBilling
  import opened TraceLaws

  // -- kinds of lines ----------------------------------------------------------------------

  predicate IsNothing(v: Option<string>) {
    v == None || v == Some("")
  }

  // An assistant's line with the usage `u`.
  predicate Uses(line: Line, u: Usage) {
    && line.Object? && line.entry.isAssistant
    && line.entry.message.Some? && line.entry.message.value.usage == Some(u)
  }

  // It belongs to the request `id`: by its request id, or, where it has none, by that of its message.
  predicate Names(line: Line, id: string, u: Usage) {
    && Uses(line, u) && id != ""
    && (line.entry.requestId == Some(id)
        || (IsNothing(line.entry.requestId) && line.entry.message.value.id == Some(id)))
  }

  // It belongs to no request.
  predicate NamesNothing(line: Line, u: Usage) {
    Uses(line, u) && IsNothing(line.entry.requestId) && IsNothing(line.entry.message.value.id)
  }

  lemma NamesIs(line: Line, id: string, u: Usage)
    ensures Names(line, id, u) <==> IsKeyed(line) && RequestKey(line.entry) == Some(id) && UsageOf(line) == u
    ensures Names(line, id, u) <==> LineRecords(line) == [Record(id, u)]
    ensures NamesNothing(line, u) <==> IsKeyless(line) && UsageOf(line) == u
  {
  }

  // Some line belongs to the request `id`.
  ghost predicate NamedIn(lines: seq<Line>, id: string) {
    exists line <- lines, u :: Names(line, id, u)
  }

  lemma NamedHaveFinals(lines: seq<Line>, id: string)
    ensures NamedIn(lines, id) <==> Final(Records(lines), id).Some?
  {
    FinalIsTop(Records(lines), id);
    if NamedIn(lines, id) {
      var line, u :| line in lines && Names(line, id, u);
      NamesIs(line, id, u);
      RecordsAre(lines, Record(id, u));
    }
    if Final(Records(lines), id).Some? {
      var r :| r in Records(lines) && r.id == id;
      RecordsAre(lines, r);
      var line :| line in lines && IsKeyed(line) && LineRecords(line) == [r];
      NamesIs(line, id, r.usage);
    }
  }

  // -- what a line adds --------------------------------------------------------------------

  function Plus(bill: Bill, u: Usage, requests: nat): Bill {
    Bill(bill.input + u.input, bill.output + u.output, bill.cacheWrite + u.cacheWrite, bill.cacheRead + u.cacheRead,
         bill.requests + requests)
  }

  function Less(u: Usage, v: Usage): Usage {
    Usage(u.input - v.input, u.output - v.output, u.cacheWrite - v.cacheWrite, u.cacheRead - v.cacheRead)
  }

  lemma NothingIsBilled()
    ensures BillOf([]) == Bill(0, 0, 0, 0, 0)
  {
  }

  // A line that is no assistant's, or that has no usage, adds nothing.
  lemma OtherLinesAddNothing(lines: seq<Line>, line: Line)
    requires forall u :: !Uses(line, u)
    ensures BillOf(lines + [line]) == BillOf(lines)
  {
    assert IsBilled(line) ==> Uses(line, UsageOf(line));
    RecordsOfLine(lines, line);
    assert Records(lines) + [] == Records(lines) && Keyless(lines) + [] == Keyless(lines);
  }

  lemma NothingAfter(lines: seq<Line>)
    ensures lines + [] == lines
  {
  }

  // A line of no request adds its usage, as a request of its own.
  lemma LineOfItsOwnAdds(lines: seq<Line>, line: Line, u: Usage)
    requires NamesNothing(line, u)
    ensures BillOf(lines + [line]) == Plus(BillOf(lines), u, 1)
  {
    NothingAfter(lines);
    NothingAfter(lines + [line]);
    KeylessIsBilledOnce(lines, line, []);
  }

  lemma NamedLineRecords(lines: seq<Line>, line: Line, id: string, u: Usage)
    requires Names(line, id, u)
    ensures Records(lines + [line]) == Records(lines) + [Record(id, u)] && Keyless(lines + [line]) == Keyless(lines)
  {
    NamesIs(line, id, u);
    RecordsOfLine(lines, line);
    assert Keyless(lines) + [] == Keyless(lines);
  }

  // A record of a request leaves the others as they are.
  lemma OthersKeepFinals(records: seq<Record>, r: Record)
    ensures forall other | other != r.id :: Final(records + [r], other) == Final(records, other)
  {
    forall other | other != r.id
      ensures Final(records + [r], other) == Final(records, other)
    {
      FinalOfRecord(records, r, other);
    }
  }

  lemma NewRequestTotal(lines: seq<Line>, line: Line, id: string, u: Usage, field: Field)
    requires Names(line, id, u) && Final(Records(lines), id).None?
    ensures Total(lines + [line], field) == Total(lines, field) + field(u)
    ensures |Ids(Records(lines + [line]))| == |Ids(Records(lines))| + 1 && Keyless(lines + [line]) == Keyless(lines)
  {
    var r, before, after := Record(id, u), Records(lines), Records(lines + [line]);
    NamedLineRecords(lines, line, id, u);
    IdsAre(before, id);
    FinalOfRecord(before, r, id);
    OthersKeepFinals(before, r);
    SumRequestsOfAppended(Ids(before), id, after, field);
    OneRequestDiffers(Ids(before), after, before, id, field);
  }

  lemma NewRequestTotals(lines: seq<Line>, line: Line, id: string, u: Usage)
    requires Names(line, id, u) && Final(Records(lines), id).None?
    ensures var after := lines + [line];
            && Total(after, INPUT) == Total(lines, INPUT) + u.input
            && Total(after, OUTPUT) == Total(lines, OUTPUT) + u.output
            && Total(after, CACHE_WRITE) == Total(lines, CACHE_WRITE) + u.cacheWrite
            && Total(after, CACHE_READ) == Total(lines, CACHE_READ) + u.cacheRead
            && |Ids(Records(after))| + |Keyless(after)| == |Ids(Records(lines))| + |Keyless(lines)| + 1
  {
    NewRequestTotal(lines, line, id, u, INPUT);
    NewRequestTotal(lines, line, id, u, OUTPUT);
    NewRequestTotal(lines, line, id, u, CACHE_WRITE);
    NewRequestTotal(lines, line, id, u, CACHE_READ);
  }

  lemma BillOfTotals(lines: seq<Line>, after: seq<Line>, u: Usage)
    requires Total(after, INPUT) == Total(lines, INPUT) + u.input
    requires Total(after, OUTPUT) == Total(lines, OUTPUT) + u.output
    requires Total(after, CACHE_WRITE) == Total(lines, CACHE_WRITE) + u.cacheWrite
    requires Total(after, CACHE_READ) == Total(lines, CACHE_READ) + u.cacheRead
    requires |Ids(Records(after))| + |Keyless(after)| == |Ids(Records(lines))| + |Keyless(lines)| + 1
    ensures BillOf(after) == Plus(BillOf(lines), u, 1)
  {
  }

  // The first line of a request adds its usage, as one request.
  lemma FirstOfRequestAdds(lines: seq<Line>, line: Line, id: string, u: Usage)
    requires Names(line, id, u) && !NamedIn(lines, id)
    ensures BillOf(lines + [line]) == Plus(BillOf(lines), u, 1)
  {
    NamedHaveFinals(lines, id);
    NewRequestTotals(lines, line, id, u);
    BillOfTotals(lines, lines + [line], u);
  }

  // Line `i` has the usage `w` of the request, with the largest output of its lines, and is the last such.
  ghost predicate IsSnapshot(lines: seq<Line>, id: string, i: nat, w: Usage) {
    && i < |lines| && Names(lines[i], id, w)
    && (forall j, v | 0 <= j < |lines| :: Names(lines[j], id, v) ==> v.output <= w.output)
    && (forall j, v | i < j < |lines| :: Names(lines[j], id, v) ==> v.output < w.output)
  }

  lemma FinalIsNamed(lines: seq<Line>, id: string)
    requires Final(Records(lines), id).Some?
    ensures exists j | 0 <= j < |lines| :: Names(lines[j], id, Final(Records(lines), id).value)
  {
    var r := Record(id, Final(Records(lines), id).value);
    FinalIsTop(Records(lines), id);
    RecordsAre(lines, r);
    var line :| line in lines && IsKeyed(line) && LineRecords(line) == [r];
    NamesIs(line, id, r.usage);
  }

  lemma {:induction false} SnapshotIsFinal(lines: seq<Line>, id: string, i: nat, w: Usage)
    requires IsSnapshot(lines, id, i, w)
    ensures Final(Records(lines), id) == Some(w)
  {
    var n := |lines| - 1;
    var init, line := lines[..n], lines[n];
    assert lines == init + [line];
    RecordsOfLine(init, line);
    if Final(Records(init), id).Some? {
      FinalIsNamed(init, id);
    }
    if i < n {
      assert forall j | 0 <= j < n :: init[j] == lines[j];
      SnapshotIsFinal(init, id, i, w);
    }
    if IsKeyed(line) {
      var r := LineRecords(line)[0];
      NamesIs(line, r.id, r.usage);
      FinalOfRecord(Records(init), r, id);
    } else {
      NamesIs(line, id, w);
      assert Records(init) + [] == Records(init);
    }
  }

  lemma KnownRequestTotal(lines: seq<Line>, line: Line, id: string, u: Usage, w: Usage)
    requires Names(line, id, u) && Final(Records(lines), id) == Some(w)
    ensures Final(Records(lines + [line]), id) == Some(if u.output >= w.output then u else w)
    ensures forall other | other != id :: Final(Records(lines + [line]), other) == Final(Records(lines), other)
    ensures Ids(Records(lines + [line])) == Ids(Records(lines)) && Keyless(lines + [line]) == Keyless(lines)
  {
    NamedLineRecords(lines, line, id, u);
    IdsAre(Records(lines), id);
    FinalOfRecord(Records(lines), Record(id, u), id);
    OthersKeepFinals(Records(lines), Record(id, u));
  }

  // A further line of a request replaces the snapshot of it, if it has no less output, and adds what it has
  // more; otherwise it adds nothing. No request is added.
  lemma FurtherLineReplaces(lines: seq<Line>, line: Line, id: string, u: Usage, i: nat, w: Usage)
    requires Names(line, id, u) && IsSnapshot(lines, id, i, w)
    ensures BillOf(lines + [line]) == if u.output >= w.output then Plus(BillOf(lines), Less(u, w), 0) else BillOf(lines)
  {
    SnapshotIsFinal(lines, id, i, w);
    KnownRequestTotal(lines, line, id, u, w);
    TotalSeesFinal(lines + [line], lines, id, INPUT);
    TotalSeesFinal(lines + [line], lines, id, OUTPUT);
    TotalSeesFinal(lines + [line], lines, id, CACHE_WRITE);
    TotalSeesFinal(lines + [line], lines, id, CACHE_READ);
  }

  // -- the model ---------------------------------------------------------------------------

  // An assistant's line that names the model `m`, and is neither an API error nor synthetic.
  predicate NamesTheModel(line: Line, m: string) {
    && line.Object? && line.entry.isAssistant && !line.entry.isApiError
    && line.entry.message.Some? && line.entry.message.value.model == m && m != "" && m != "<synthetic>"
  }

  // The model of a trace is the one that is named first.
  lemma {:induction false} ModelIsFirstNamed(lines: seq<Line>, i: nat)
    requires i <= |lines| && forall j, m | 0 <= j < i :: !NamesTheModel(lines[j], m)
    ensures i == |lines| ==> FirstModel(lines) == ""
    ensures forall m :: i < |lines| && NamesTheModel(lines[i], m) ==> FirstModel(lines) == m
  {
    if lines != [] {
      var n := |lines| - 1;
      assert NamesModel(lines[n]) ==> NamesTheModel(lines[n], lines[n].entry.message.value.model);
      ModelIsFirstNamed(lines[..n], if i < n then i else n);
    }
  }

  // -- the timestamp -----------------------------------------------------------------------

  predicate IsStamped(line: Line, stamp: string) {
    line.Object? && line.entry.timestamp == Some(stamp) && stamp != ""
  }

  // `a` is a later moment than `b`: it cannot be dated where `b` can, or it has the larger time.
  predicate IsLater(a: Moment, b: Moment) {
    a.flag > b.flag || (a.flag == b.flag && a.at > b.at)
  }

  ghost predicate IsLatestStamp(lines: seq<Line>, instant: Instant, i: nat, stamp: string) {
    && i < |lines| && IsStamped(lines[i], stamp)
    && (forall j, other | 0 <= j < |lines| :: IsStamped(lines[j], other) ==> !IsLater(instant(other), instant(stamp)))
    && (forall j, other | 0 <= j < i :: IsStamped(lines[j], other) ==> IsLater(instant(stamp), instant(other)))
  }

  lemma NewestIsStamped(lines: seq<Line>, instant: Instant)
    ensures Newest(lines, instant) == "" <==> forall j, stamp | 0 <= j < |lines| :: !IsStamped(lines[j], stamp)
    ensures Newest(lines, instant) != "" ==> exists j | 0 <= j < |lines| :: IsStamped(lines[j], Newest(lines, instant))
  {
    NewestIsLatest(lines, instant);
    if Newest(lines, instant) == "" {
      assert forall j | 0 <= j < |lines| :: lines[j] in lines && !IsDated(lines[j]);
    } else {
      var line :| line in lines && IsDated(line) && line.entry.timestamp.value == Newest(lines, instant);
      var j :| 0 <= j < |lines| && lines[j] == line;
      assert IsStamped(lines[j], Newest(lines, instant));
    }
  }

  // A trace is dated by the first of its lines, of whatever kind, whose moment is the latest.
  lemma {:induction false} NewestIsFirstLatest(lines: seq<Line>, instant: Instant, i: nat, stamp: string)
    requires IsLatestStamp(lines, instant, i, stamp)
    ensures Newest(lines, instant) == stamp
  {
    var n := |lines| - 1;
    var init := lines[..n];
    NewestIsStamped(init, instant);
    assert forall j | 0 <= j < n :: init[j] == lines[j];
    if i < n {
      NewestIsFirstLatest(init, instant, i, stamp);
      assert forall other :: IsStamped(lines[n], other) ==> !IsLater(instant(other), instant(stamp));
    }
  }
}
