// Token usage read off a trace: one snapshot per API request, the most complete one, and one per line
// that names no request.
module TraceBilling {
  import opened Wrappers
  import opened Sequences
  import opened AttemptPolicy

  datatype Usage = Usage(input: int, output: int, cacheWrite: int, cacheRead: int)

  // `usage` is absent when the message carries none or an empty one.
  datatype Message = Message(id: Option<string>, model: string, usage: Option<Usage>)

  // `message` is absent when it is missing or empty; `requestId` and `timestamp` when they are not texts.
  datatype Entry = Entry(
    isAssistant: bool,
    requestId: Option<string>,
    message: Option<Message>,
    isApiError: bool,
    timestamp: Option<string>)

  datatype Line = Blank | Malformed | NotAnObject | Object(entry: Entry)

  // A request by its id, or a line of its own by its number.
  datatype Key = Request(id: string) | LineNo(n: nat)

  datatype Record = Record(id: string, usage: Usage)

  datatype Bill = Bill(input: int, output: int, cacheWrite: int, cacheRead: int, requests: nat)

  datatype TraceScan = TraceScan(bill: Bill, model: string, lastTimestamp: string)

  type Field = Usage -> int

  const INPUT: Field := (u: Usage) => u.input
  const OUTPUT: Field := (u: Usage) => u.output
  const CACHE_WRITE: Field := (u: Usage) => u.cacheWrite
  const CACHE_READ: Field := (u: Usage) => u.cacheRead

  const DEFAULT_MODEL := "claude-sonnet-4-6"
  const SYNTHETIC_MODEL := "<synthetic>"

  // -- one line -----------------------------------------------------------------------------------

  function RequestKey(e: Entry): Option<string> {
    if e.requestId.Some? && e.requestId.value != "" then e.requestId
    else if e.message.Some? && e.message.value.id.Some? && e.message.value.id.value != "" then e.message.value.id
    else None
  }

  predicate IsBilled(line: Line) {
    line.Object? && line.entry.isAssistant && line.entry.message.Some? && line.entry.message.value.usage.Some?
  }

  function UsageOf(line: Line): Usage
    requires IsBilled(line)
  {
    line.entry.message.value.usage.value
  }

  predicate IsKeyed(line: Line) {
    IsBilled(line) && RequestKey(line.entry).Some?
  }

  predicate IsKeyless(line: Line) {
    IsBilled(line) && RequestKey(line.entry).None?
  }

  predicate NamesModel(line: Line) {
    && line.Object? && line.entry.isAssistant && line.entry.message.Some?
    && line.entry.message.value.model != "" && !line.entry.isApiError
    && line.entry.message.value.model != SYNTHETIC_MODEL
  }

  // -- the bill as a specification --------------------------------------------------------------

  // The records of requests, and the usage of lines that belong to none.
  function Records(lines: seq<Line>): seq<Record> {
    if lines == [] then []
    else
      var n := |lines| - 1;
      Records(lines[..n])
      + (if IsKeyed(lines[n]) then [Record(RequestKey(lines[n].entry).value, UsageOf(lines[n]))] else [])
  }

  function Keyless(lines: seq<Line>): seq<Usage> {
    if lines == [] then []
    else
      var n := |lines| - 1;
      Keyless(lines[..n]) + (if IsKeyless(lines[n]) then [UsageOf(lines[n])] else [])
  }

  // The snapshot a request is left with: a record replaces another that has no more output.
  function Final(records: seq<Record>, id: string): Option<Usage> {
    if records == [] then None
    else
      var n := |records| - 1;
      var before := Final(records[..n], id);
      if records[n].id == id && (before.None? || records[n].usage.output >= before.value.output)
      then Some(records[n].usage) else before
  }

  // The requests in the order they are first seen.
  function Ids(records: seq<Record>): seq<string> {
    if records == [] then []
    else
      var n := |records| - 1;
      var before := Ids(records[..n]);
      if records[n].id in before then before else before + [records[n].id]
  }

  function OfRequest(records: seq<Record>, id: string, field: Field): int {
    var final := Final(records, id);
    if final.Some? then field(final.value) else 0
  }

  function SumRequests(ids: seq<string>, records: seq<Record>, field: Field): int {
    if ids == [] then 0 else OfRequest(records, ids[0], field) + SumRequests(ids[1..], records, field)
  }

  function SumUsages(usages: seq<Usage>, field: Field): int {
    if usages == [] then 0 else field(usages[0]) + SumUsages(usages[1..], field)
  }

  function Total(lines: seq<Line>, field: Field): int {
    SumRequests(Ids(Records(lines)), Records(lines), field) + SumUsages(Keyless(lines), field)
  }

  function BillOf(lines: seq<Line>): Bill {
    Bill(Total(lines, INPUT), Total(lines, OUTPUT), Total(lines, CACHE_WRITE), Total(lines, CACHE_READ),
         |Ids(Records(lines))| + |Keyless(lines)|)
  }

  // The first real model an assistant names.
  function FirstModel(lines: seq<Line>): string {
    if lines == [] then ""
    else
      var n := |lines| - 1;
      var before := FirstModel(lines[..n]);
      if before == "" && NamesModel(lines[n]) then lines[n].entry.message.value.model else before
  }

  predicate MomentLt(a: Moment, b: Moment) {
    a.flag < b.flag || (a.flag == b.flag && a.at < b.at)
  }

  function NewerTimestamp(line: Line, current: string, instant: Instant): string {
    if !line.Object? || line.entry.timestamp.None? || line.entry.timestamp.value == "" then current
    else if current == "" then line.entry.timestamp.value
    else if MomentLt(instant(current), instant(line.entry.timestamp.value)) then line.entry.timestamp.value
    else current
  }

  function Newest(lines: seq<Line>, instant: Instant): string {
    if lines == [] then ""
    else NewerTimestamp(lines[|lines| - 1], Newest(lines[..|lines| - 1], instant), instant)
  }

  // -- the dictionary of the scan -----------------------------------------------------------------

  function RequestIds(order: seq<Key>): seq<string> {
    if order == [] then []
    else RequestIds(order[..|order| - 1]) + (if order[|order| - 1].Request? then [order[|order| - 1].id] else [])
  }

  function LineUsages(order: seq<Key>, selected: map<Key, Usage>): seq<Usage>
    requires forall k <- order :: k in selected
  {
    if order == [] then []
    else
      var n := |order| - 1;
      LineUsages(order[..n], selected) + (if order[n].LineNo? then [selected[order[n]]] else [])
  }

  function SumSelected(order: seq<Key>, selected: map<Key, Usage>, field: Field): int
    requires forall k <- order :: k in selected
  {
    if order == [] then 0
    else SumSelected(order[..|order| - 1], selected, field) + field(selected[order[|order| - 1]])
  }

  // The dictionary holds, in the order of insertion, the snapshot of every request so far and the
  // usage of every line that belongs to none.
  ghost predicate Holds(selected: map<Key, Usage>, order: seq<Key>, lines: seq<Line>) {
    && Distinct(order) && (forall k :: k in order <==> k in selected)
    && (forall k <- order :: k.LineNo? ==> k.n < |lines|)
    && RequestIds(order) == Ids(Records(lines))
    && LineUsages(order, selected) == Keyless(lines)
    && (forall k <- order :: k.Request? ==> Final(Records(lines), k.id) == Some(selected[k]))
  }

  lemma {:induction false} RequestIdsAre(order: seq<Key>)
    ensures forall id :: id in RequestIds(order) <==> Request(id) in order
  {
    if order != [] {
      var n := |order| - 1;
      RequestIdsAre(order[..n]);
      assert order == order[..n] + [order[n]];
    }
  }

  lemma {:induction false} IdsAre(records: seq<Record>, id: string)
    ensures id in Ids(records) <==> Final(records, id).Some?
    ensures Distinct(Ids(records))
  {
    if records != [] {
      var n := |records| - 1;
      IdsAre(records[..n], id);
      IdsAre(records[..n], records[n].id);
    }
  }

  lemma {:induction false} LineUsagesKeep(order: seq<Key>, selected: map<Key, Usage>, k: Key, u: Usage)
    requires forall x <- order :: x in selected
    requires k.Request? || k !in order
    ensures LineUsages(order, selected[k := u]) == LineUsages(order, selected)
  {
    if order != [] {
      assert order[|order| - 1] in order;
      LineUsagesKeep(order[..|order| - 1], selected, k, u);
    }
  }

  lemma RecordsOfLine(lines: seq<Line>, line: Line)
    ensures Records(lines + [line])
         == Records(lines) + (if IsKeyed(line) then [Record(RequestKey(line.entry).value, UsageOf(line))] else [])
    ensures Keyless(lines + [line]) == Keyless(lines) + (if IsKeyless(line) then [UsageOf(line)] else [])
  {
    assert (lines + [line])[..|lines|] == lines;
  }

  lemma FinalOfRecord(records: seq<Record>, r: Record, id: string)
    ensures Final(records + [r], id) ==
            (if r.id == id && (Final(records, id).None? || r.usage.output >= Final(records, id).value.output)
             then Some(r.usage) else Final(records, id))
    ensures Ids(records + [r]) == (if r.id in Ids(records) then Ids(records) else Ids(records) + [r.id])
  {
    assert (records + [r])[..|records|] == records;
  }

  // -- one step of the scan -----------------------------------------------------------------------

  lemma HoldsUnbilled(selected: map<Key, Usage>, order: seq<Key>, lines: seq<Line>, line: Line)
    requires Holds(selected, order, lines) && !IsBilled(line)
    ensures Holds(selected, order, lines + [line])
  {
    RecordsOfLine(lines, line);
    assert Records(lines) + [] == Records(lines) && Keyless(lines) + [] == Keyless(lines);
  }

  lemma KeyAppended(selected: map<Key, Usage>, order: seq<Key>, key: Key, u: Usage)
    requires (forall k :: k in order <==> k in selected) && Distinct(order) && key !in selected
    ensures Distinct(order + [key]) && (forall k :: k in order + [key] <==> k in selected[key := u])
    ensures RequestIds(order + [key]) == RequestIds(order) + (if key.Request? then [key.id] else [])
    ensures LineUsages(order + [key], selected[key := u])
            == LineUsages(order, selected) + (if key.LineNo? then [u] else [])
  {
    DistinctConcat(order, [key]);
    LineUsagesKeep(order, selected, key, u);
    assert (order + [key])[..|order|] == order;
  }

  lemma HoldsKeyless(selected: map<Key, Usage>, order: seq<Key>, lines: seq<Line>, line: Line)
    requires Holds(selected, order, lines) && IsKeyless(line)
    ensures LineNo(|lines|) !in selected
    ensures Holds(selected[LineNo(|lines|) := UsageOf(line)], order + [LineNo(|lines|)], lines + [line])
  {
    RecordsOfLine(lines, line);
    assert Records(lines) + [] == Records(lines);
    KeylessAdded(selected, order, |lines|, Records(lines), UsageOf(line));
    KeyAppended(selected, order, LineNo(|lines|), UsageOf(line));
    assert RequestIds(order) + [] == RequestIds(order);
  }

  lemma KeylessAdded(selected: map<Key, Usage>, order: seq<Key>, n: nat, records: seq<Record>, u: Usage)
    requires (forall k :: k in order <==> k in selected) && (forall k <- order :: k.LineNo? ==> k.n < n)
    requires forall k <- order :: k.Request? ==> Final(records, k.id) == Some(selected[k])
    ensures LineNo(n) !in selected
    ensures forall k <- order + [LineNo(n)] :: k.LineNo? ==> k.n < n + 1
    ensures forall k <- order + [LineNo(n)] :: k.Request? ==> Final(records, k.id) == Some(selected[LineNo(n) := u][k])
  {
  }

  lemma NewRequestFinals(selected: map<Key, Usage>, order: seq<Key>, records: seq<Record>, r: Record)
    requires forall k <- order :: k in selected && (k.Request? ==> Final(records, k.id) == Some(selected[k]))
    requires Request(r.id) !in order && Final(records, r.id).None?
    ensures forall k <- order + [Request(r.id)] :: k.Request? ==>
              Final(records + [r], k.id) == Some(selected[Request(r.id) := r.usage][k])
  {
    forall k | k in order + [Request(r.id)] && k.Request?
      ensures Final(records + [r], k.id) == Some(selected[Request(r.id) := r.usage][k])
    {
      FinalOfRecord(records, r, k.id);
    }
  }

  lemma HoldsNewRequest(selected: map<Key, Usage>, order: seq<Key>, lines: seq<Line>, line: Line)
    requires Holds(selected, order, lines) && IsKeyed(line)
    requires Request(RequestKey(line.entry).value) !in selected
    ensures var key := Request(RequestKey(line.entry).value);
            Holds(selected[key := UsageOf(line)], order + [key], lines + [line])
  {
    var id, u := RequestKey(line.entry).value, UsageOf(line);
    RecordsOfLine(lines, line);
    RequestIdsAre(order);
    IdsAre(Records(lines), id);
    KeyAppended(selected, order, Request(id), u);
    NewRequestFinals(selected, order, Records(lines), Record(id, u));
    FinalOfRecord(Records(lines), Record(id, u), id);
    assert Keyless(lines) + [] == Keyless(lines);
  }

  lemma HoldsKnownRequest(selected: map<Key, Usage>, order: seq<Key>, lines: seq<Line>, line: Line)
    requires Holds(selected, order, lines) && IsKeyed(line)
    requires Request(RequestKey(line.entry).value) in selected
    ensures var key := Request(RequestKey(line.entry).value);
            var kept :=
              if UsageOf(line).output >= selected[key].output then selected[key := UsageOf(line)] else selected;
            Holds(kept, order, lines + [line])
  {
    var key, u := Request(RequestKey(line.entry).value), UsageOf(line);
    var r := Record(key.id, u);
    RecordsOfLine(lines, line);
    assert Keyless(lines) + [] == Keyless(lines);
    RequestIdsAre(order);
    LineUsagesKeep(order, selected, key, u);
    forall k | k in order && k.Request?
      ensures Final(Records(lines) + [r], k.id) ==
              (if k == key && u.output >= selected[key].output then Some(u) else Final(Records(lines), k.id))
    {
      FinalOfRecord(Records(lines), r, k.id);
    }
    FinalOfRecord(Records(lines), r, key.id);
  }

  // -- totals ---------------------------------------------------------------------------------------

  lemma {:induction false} SumUsagesOfAppended(usages: seq<Usage>, u: Usage, field: Field)
    ensures SumUsages(usages + [u], field) == SumUsages(usages, field) + field(u)
  {
    if usages == [] {
      assert usages + [u] == [u];
    } else {
      assert (usages + [u])[1..] == usages[1..] + [u];
      SumUsagesOfAppended(usages[1..], u, field);
    }
  }

  lemma {:induction false} SumRequestsOfAppended(ids: seq<string>, id: string, records: seq<Record>, field: Field)
    ensures SumRequests(ids + [id], records, field) == SumRequests(ids, records, field) + OfRequest(records, id, field)
  {
    if ids == [] {
      assert ids + [id] == [id];
    } else {
      assert (ids + [id])[1..] == ids[1..] + [id];
      SumRequestsOfAppended(ids[1..], id, records, field);
    }
  }

  // Adding up the dictionary adds up the requests and the lines of their own.
  lemma {:induction false} SumSelectedSplits(order: seq<Key>, selected: map<Key, Usage>, records: seq<Record>,
                                             field: Field)
    requires forall k <- order :: k in selected
    requires forall k <- order :: k.Request? ==> Final(records, k.id) == Some(selected[k])
    ensures SumSelected(order, selected, field)
         == SumRequests(RequestIds(order), records, field) + SumUsages(LineUsages(order, selected), field)
    ensures |order| == |RequestIds(order)| + |LineUsages(order, selected)|
  {
    if order != [] {
      var n := |order| - 1;
      var k := order[n];
      assert k in order && forall x <- order[..n] :: x in order;
      SumSelectedSplits(order[..n], selected, records, field);
      assert order == order[..n] + [k];
      if k.Request? {
        SplitsAtRequest(order[..n], k, selected, records, field);
      } else {
        SplitsAtLine(order[..n], k, selected, field);
      }
    }
  }

  lemma SplitsAtRequest(order: seq<Key>, k: Key, selected: map<Key, Usage>, records: seq<Record>, field: Field)
    requires k.Request? && k in selected && (forall x <- order :: x in selected)
    requires Final(records, k.id) == Some(selected[k])
    ensures SumSelected(order + [k], selected, field) == SumSelected(order, selected, field) + field(selected[k])
    ensures SumRequests(RequestIds(order + [k]), records, field)
         == SumRequests(RequestIds(order), records, field) + field(selected[k])
    ensures LineUsages(order + [k], selected) == LineUsages(order, selected)
    ensures |RequestIds(order + [k])| == |RequestIds(order)| + 1
  {
    assert (order + [k])[..|order|] == order;
    SumRequestsOfAppended(RequestIds(order), k.id, records, field);
    assert LineUsages(order, selected) + [] == LineUsages(order, selected);
  }

  lemma SplitsAtLine(order: seq<Key>, k: Key, selected: map<Key, Usage>, field: Field)
    requires !k.Request? && k in selected && (forall x <- order :: x in selected)
    ensures SumSelected(order + [k], selected, field) == SumSelected(order, selected, field) + field(selected[k])
    ensures SumUsages(LineUsages(order + [k], selected), field)
         == SumUsages(LineUsages(order, selected), field) + field(selected[k])
    ensures RequestIds(order + [k]) == RequestIds(order)
    ensures |LineUsages(order + [k], selected)| == |LineUsages(order, selected)| + 1
  {
    assert (order + [k])[..|order|] == order;
    SumUsagesOfAppended(LineUsages(order, selected), selected[k], field);
    assert RequestIds(order) + [] == RequestIds(order);
  }

  method SumField(order: seq<Key>, selected: map<Key, Usage>, field: Field, ghost lines: seq<Line>) returns (sum: int)
    requires Holds(selected, order, lines)
    ensures sum == Total(lines, field)
    ensures |order| == |Ids(Records(lines))| + |Keyless(lines)|
  {
    sum := 0;
    for i := 0 to |order|
      invariant sum == SumSelected(order[..i], selected, field)
    {
      assert order[..i + 1][..i] == order[..i];
      assert order[i] in order;
      sum := sum + field(selected[order[i]]);
    }
    assert order[..|order|] == order;
    SumSelectedSplits(order, selected, Records(lines), field);
  }

  method ScanTrace(lines: seq<Line>, instant: Instant) returns (scan: TraceScan)
    ensures scan.bill == BillOf(lines)
    ensures scan.model == (if FirstModel(lines) == "" then "claude-sonnet-4-6" else FirstModel(lines))
    ensures scan.lastTimestamp == Newest(lines, instant)
  {
    var selected: map<Key, Usage> := map[];
    var order: seq<Key> := [];
    var model, lastTimestamp := "", "";
    for lineNo := 0 to |lines|
      invariant Holds(selected, order, lines[..lineNo])
      invariant model == FirstModel(lines[..lineNo]) && lastTimestamp == Newest(lines[..lineNo], instant)
    {
      var line := lines[lineNo];
      ghost var seen := lines[..lineNo];
      assert lines[..lineNo + 1] == seen + [line] && (seen + [line])[..lineNo] == seen;
      lastTimestamp := NewerTimestamp(line, lastTimestamp, instant);
      if model == "" && NamesModel(line) {
        model := line.entry.message.value.model;
      }
      if IsBilled(line) {
        var requestKey := RequestKey(line.entry);
        var key := if requestKey.Some? then Request(requestKey.value) else LineNo(lineNo);
        var usage := UsageOf(line);
        if requestKey.None? {
          HoldsKeyless(selected, order, seen, line);
        } else if key in selected {
          HoldsKnownRequest(selected, order, seen, line);
        } else {
          HoldsNewRequest(selected, order, seen, line);
        }
        if key !in selected {
          order := order + [key];
          selected := selected[key := usage];
        } else if usage.output >= selected[key].output {
          selected := selected[key := usage];
        }
      } else {
        HoldsUnbilled(selected, order, seen, line);
      }
    }
    assert lines[..|lines|] == lines;
    var bill := BillFrom(order, selected, lines);
    scan := TraceScan(bill, if model == "" then DEFAULT_MODEL else model, lastTimestamp);
  }

  method BillFrom(order: seq<Key>, selected: map<Key, Usage>, ghost lines: seq<Line>) returns (bill: Bill)
    requires Holds(selected, order, lines)
    ensures bill == BillOf(lines)
  {
    var input := SumField(order, selected, INPUT, lines);
    var output := SumField(order, selected, OUTPUT, lines);
    var cacheWrite := SumField(order, selected, CACHE_WRITE, lines);
    var cacheRead := SumField(order, selected, CACHE_READ, lines);
    bill := Bill(input, output, cacheWrite, cacheRead, |order|);
  }
}
