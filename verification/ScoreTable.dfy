// The collapse of scored results to one attempt per cell, and its agreement with the comparison of
// costs: for an unlabelled cell that both have seen the same attempts of, they choose the same run.
module ScoreTable {
  import opened Wrappers
  import opened Sequences
  import opened Sorting
  import opened Grouping
  import opened AttemptPolicy
  import opened Comparison
  import opened ComparisonLaws

  datatype TaskResult = TaskResult(
    taskId: string,
    mode: string,
    variantLabel: Option<string>,
    score: real,
    timestamp: string,
    runDir: string)

  datatype LabelledCell = LabelledCell(task: string, mode: string, variantLabel: Option<string>)

  // What reading one results file gives.
  datatype Parsed = Skipped | Unreadable | Parsed(result: TaskResult)

  // The scan is finished before it fails, so that it can say how many files were unreadable.
  datatype ScanError = NoContract(unreadable: nat, total: nat)

  const LABELLED_CELL_OF: TaskResult -> LabelledCell :=
    (r: TaskResult) => LabelledCell(r.taskId, r.mode, r.variantLabel)

  function ResultKeyOf(instant: Instant): TaskResult -> SortKey {
    (r: TaskResult) => AttemptSortKey(r.timestamp, r.runDir, instant)
  }

  function Results(scan: seq<Parsed>): seq<TaskResult> {
    if scan == [] then []
    else (if scan[0].Parsed? then [scan[0].result] else []) + Results(scan[1..])
  }

  function UnreadableIn(scan: seq<Parsed>): nat {
    if scan == [] then 0 else (if scan[0].Unreadable? then 1 else 0) + UnreadableIn(scan[1..])
  }

  lemma {:induction false} UnreadableOfConcat(a: seq<Parsed>, b: seq<Parsed>)
    ensures UnreadableIn(a + b) == UnreadableIn(a) + UnreadableIn(b)
  {
    if a == [] {
      assert a + b == b;
    } else {
      assert (a + b)[1..] == a[1..] + b;
      UnreadableOfConcat(a[1..], b);
    }
  }

  lemma {:induction false} ResultsOfConcat(a: seq<Parsed>, b: seq<Parsed>)
    ensures Results(a + b) == Results(a) + Results(b)
  {
    if a == [] {
      assert a + b == b;
    } else {
      assert (a + b)[1..] == a[1..] + b;
      ResultsOfConcat(a[1..], b);
      var first := if a[0].Parsed? then [a[0].result] else [];
      Associate(first, Results(a[1..]), Results(b));
    }
  }

  // What a scan has read, and how many files it could not read, is told file by file.
  lemma ScanOfConcat(a: seq<Parsed>, b: seq<Parsed>)
    ensures Results(a + b) == Results(a) + Results(b) && UnreadableIn(a + b) == UnreadableIn(a) + UnreadableIn(b)
  {
    ResultsOfConcat(a, b);
    UnreadableOfConcat(a, b);
  }

  lemma ScanOfOne(r: TaskResult)
    ensures Results([Parsed(r)]) == [r] && Results([Skipped]) == Results([Unreadable]) == Results([]) == []
    ensures UnreadableIn([Unreadable]) == 1
    ensures UnreadableIn([Parsed(r)]) == UnreadableIn([Skipped]) == UnreadableIn([]) == 0
  {
    assert [Parsed(r)][1..] == [] && [Skipped][1..] == [] && [Unreadable][1..] == [];
  }

  predicate IsEarliestOfItsCell(d: TaskResult, all: seq<TaskResult>, instant: Instant) {
    var cell := Members(all, LABELLED_CELL_OF, LABELLED_CELL_OF(d));
    cell != [] && d == Earliest(cell, ResultKeyOf(instant))
  }

  predicate IsRepresented(r: TaskResult, deduped: seq<TaskResult>) {
    exists d <- deduped :: LABELLED_CELL_OF(d) == LABELLED_CELL_OF(r)
  }

  // One result per cell, the earliest of the cell.
  ghost predicate IsCollapsed(deduped: seq<TaskResult>, all: seq<TaskResult>, instant: Instant) {
    && (forall i, j | 0 <= i < j < |deduped| :: LABELLED_CELL_OF(deduped[i]) != LABELLED_CELL_OF(deduped[j]))
    && (forall r <- all :: IsRepresented(r, deduped))
    && (forall d <- deduped :: IsEarliestOfItsCell(d, all, instant))
  }

  lemma EarliestIsInItsCell(all: seq<TaskResult>, instant: Instant, cell: LabelledCell)
    requires Members(all, LABELLED_CELL_OF, cell) != []
    ensures var d := Earliest(Members(all, LABELLED_CELL_OF, cell), ResultKeyOf(instant));
            LABELLED_CELL_OF(d) == cell && IsEarliestOfItsCell(d, all, instant)
  {
    MembersAre(all, LABELLED_CELL_OF, cell);
    EarliestIsLeast(Members(all, LABELLED_CELL_OF, cell), ResultKeyOf(instant));
  }

  // The result of a cell, labelled or not, is the earliest of the results at it.
  lemma CollapsedIsEarliest(deduped: seq<TaskResult>, all: seq<TaskResult>, instant: Instant, d: TaskResult,
                            other: TaskResult)
    requires IsCollapsed(deduped, all, instant) && d in deduped && other in all
    requires other.taskId == d.taskId && other.mode == d.mode && other.variantLabel == d.variantLabel
    ensures d in all
    ensures var m, m' := instant(d.timestamp), instant(other.timestamp);
            && m.flag <= m'.flag
            && (m.flag == m'.flag ==> m.at <= m'.at)
            && (m == m' ==> ComesFirst(d.runDir, other.runDir))
  {
    MembersAre(all, LABELLED_CELL_OF, LABELLED_CELL_OF(d));
    EarliestIsLeast(Members(all, LABELLED_CELL_OF, LABELLED_CELL_OF(d)), ResultKeyOf(instant));
    KeysAreChronological(d.timestamp, d.runDir, other.timestamp, other.runDir, instant);
  }

  // One result is kept for every task, mode and label that occurs.
  lemma EveryCellIsKeptOnce(deduped: seq<TaskResult>, all: seq<TaskResult>, instant: Instant, r: TaskResult)
    requires IsCollapsed(deduped, all, instant) && r in all
    ensures exists i | 0 <= i < |deduped| ::
              var d := deduped[i];
              && d.taskId == r.taskId && d.mode == r.mode && d.variantLabel == r.variantLabel
              && forall j | 0 <= j < |deduped| && j != i ::
                 deduped[j].taskId != r.taskId || deduped[j].mode != r.mode || deduped[j].variantLabel != r.variantLabel
  {
    assert IsRepresented(r, deduped);
    var d :| d in deduped && LABELLED_CELL_OF(d) == LABELLED_CELL_OF(r);
    var i :| 0 <= i < |deduped| && deduped[i] == d;
    forall j | 0 <= j < |deduped| && j != i
      ensures deduped[j].taskId != r.taskId || deduped[j].mode != r.mode || deduped[j].variantLabel != r.variantLabel
    {
      assert LABELLED_CELL_OF(deduped[j]) != LABELLED_CELL_OF(deduped[i]);
    }
  }

  method Collapse(all: seq<TaskResult>, instant: Instant) returns (deduped: seq<TaskResult>)
    ensures IsCollapsed(deduped, all, instant)
  {
    var byCell, order := GroupBy(all, LABELLED_CELL_OF);
    deduped := [];
    for i := 0 to |order|
      invariant |deduped| == i
      invariant forall k | 0 <= k < i ::
                LABELLED_CELL_OF(deduped[k]) == order[k] && IsEarliestOfItsCell(deduped[k], all, instant)
    {
      var cell := order[i];
      EarliestIsInItsCell(all, instant, cell);
      deduped := deduped + [Earliest(byCell[cell], ResultKeyOf(instant))];
    }
    forall r <- all
      ensures IsRepresented(r, deduped)
    {
      MembersAre(all, LABELLED_CELL_OF, LABELLED_CELL_OF(r));
      assert r in Members(all, LABELLED_CELL_OF, LABELLED_CELL_OF(r));
      var k :| 0 <= k < |order| && order[k] == LABELLED_CELL_OF(r);
      assert deduped[k] in deduped;
    }
  }

  method LoadAllResults(scan: seq<Parsed>, instant: Instant) returns (loaded: Result<seq<TaskResult>, ScanError>)
    ensures loaded.Success? <==> UnreadableIn(scan) == 0
    ensures loaded.Success? ==> IsCollapsed(loaded.value, Results(scan), instant)
    ensures loaded.Failure? ==> loaded.error == NoContract(UnreadableIn(scan), UnreadableIn(scan) + |Results(scan)|)
  {
    var all: seq<TaskResult> := [];
    var unreadable := 0;
    assert scan[0..] == scan && all + Results(scan) == Results(scan);
    for i := 0 to |scan|
      invariant all + Results(scan[i..]) == Results(scan)
      invariant unreadable + UnreadableIn(scan[i..]) == UnreadableIn(scan)
    {
      assert scan[i..][1..] == scan[i + 1..];
      if scan[i].Unreadable? {
        unreadable := unreadable + 1;
        assert [] + Results(scan[i + 1..]) == Results(scan[i + 1..]);
      } else if scan[i].Parsed? {
        Associate(all, [scan[i].result], Results(scan[i + 1..]));
        all := all + [scan[i].result];
      } else {
        assert [] + Results(scan[i + 1..]) == Results(scan[i + 1..]);
      }
    }
    assert all + [] == all;
    if unreadable > 0 {
      return Failure(NoContract(unreadable, unreadable + |all|));
    }
    var deduped := Collapse(all, instant);
    return Success(deduped);
  }

  // -- agreement -----------------------------------------------------------------------------------

  function Unlabelled(cell: Cell): LabelledCell {
    LabelledCell(cell.task, cell.mode, None)
  }

  // The two readers have come upon attempts with the same timestamps and directories.
  ghost predicate SeeTheSame(costs: seq<TaskCost>, all: seq<TaskResult>, instant: Instant, cell: Cell) {
    KeysOf(CellAttempts(costs, cell), KeyOf(instant))
      == KeysOf(Members(all, LABELLED_CELL_OF, Unlabelled(cell)), ResultKeyOf(instant))
  }

  lemma SameRunIsChosen(costs: seq<TaskCost>, all: seq<TaskResult>, instant: Instant, cell: Cell)
    requires SeeTheSame(costs, all, instant, cell) && Pick(costs, instant, cell).Some?
    ensures var group := Members(all, LABELLED_CELL_OF, Unlabelled(cell));
            && group != []
            && ResultKeyOf(instant)(Earliest(group, ResultKeyOf(instant)))
               == KeyOf(instant)(Pick(costs, instant, cell).value)
  {
    var attempts := CellAttempts(costs, cell);
    var group := Members(all, LABELLED_CELL_OF, Unlabelled(cell));
    assert KeyOf(instant)(attempts[0]) in KeysOf(attempts, KeyOf(instant));
    assert group != [];
    SameKeysSameChoice(attempts, KeyOf(instant), group, ResultKeyOf(instant));
  }

  // The row of the cost comparison and the row of the score table are the same run, so that a join of
  // the two pairs a run's score with that run's cost.
  lemma ScoresAndCostsAreOfTheSameRun(costs: seq<TaskCost>, instant: Instant, c: ComparisonSet, row: TaskCost,
                                      all: seq<TaskResult>, deduped: seq<TaskResult>)
    returns (scored: TaskResult)
    requires IsComparison(costs, instant, c) && row in c.rows
    requires IsCollapsed(deduped, all, instant) && SeeTheSame(costs, all, instant, CELL_OF(row))
    ensures scored in deduped && LABELLED_CELL_OF(scored) == Unlabelled(CELL_OF(row))
    ensures scored.runDir == row.runDir && instant(scored.timestamp) == instant(row.timestamp)
    ensures forall d <- deduped :: LABELLED_CELL_OF(d) == Unlabelled(CELL_OF(row)) ==> d == scored
  {
    RowIsPick(costs, instant, c, row);
    SameRunIsChosen(costs, all, instant, CELL_OF(row));
    var group := Members(all, LABELLED_CELL_OF, Unlabelled(CELL_OF(row)));
    MembersAre(all, LABELLED_CELL_OF, Unlabelled(CELL_OF(row)));
    assert group[0] in group;
    assert IsRepresented(group[0], deduped);
    scored :| scored in deduped && LABELLED_CELL_OF(scored) == Unlabelled(CELL_OF(row));
    assert IsEarliestOfItsCell(scored, all, instant);
    assert ResultKeyOf(instant)(scored) == KeyOf(instant)(row);
  }
}
