// The matched cost comparison: one scored attempt for every task and arm, over the tasks that every
// arm scored.
module Comparison {
  import opened Wrappers
  import opened Sequences
  import opened Sorting
  import opened Grouping
  import opened AttemptPolicy

  // An attempt that was paid for. Costs are in millionths of a dollar, as they are rounded to.
  datatype TaskCost = TaskCost(
    taskId: string,
    mode: string,
    suite: string,
    difficulty: string,
    variantLabel: Option<string>,
    normalizedScore: Option<real>,
    timestamp: string,
    runDir: string,
    costMicros: int,
    inputTokens: nat,
    outputTokens: nat)

  datatype Cell = Cell(task: string, mode: string)

  datatype ComparisonSet = ComparisonSet(
    rows: seq<TaskCost>, taskIds: seq<string>, modes: seq<string>, excluded: seq<string>)

  const CELL_OF: TaskCost -> Cell := (c: TaskCost) => Cell(c.taskId, c.mode)

  const VALID_MODES: set<string> :=
    {"baseline", "mcp_only", "mcp_code_finder", "mcp_assisted", "hybrid", "cli", "cli_code_finder"}

  predicate IsInScope(c: TaskCost) {
    c.mode in VALID_MODES && c.variantLabel.None?
  }

  function InScope(costs: seq<TaskCost>): seq<TaskCost> {
    if costs == [] then []
    else (if IsInScope(costs[0]) then [costs[0]] else []) + InScope(costs[1..])
  }

  function Scored(attempts: seq<TaskCost>): seq<TaskCost> {
    if attempts == [] then []
    else (if attempts[0].normalizedScore.Some? then [attempts[0]] else []) + Scored(attempts[1..])
  }

  function KeyOf(instant: Instant): TaskCost -> SortKey {
    (c: TaskCost) => AttemptSortKey(c.timestamp, c.runDir, instant)
  }

  // The attempt that represents its cell, if any attempt at the cell was scored.
  function SelectAttempt(attempts: seq<TaskCost>, instant: Instant): Option<TaskCost> {
    var scored := Scored(attempts);
    if scored == [] then None else Some(Earliest(scored, KeyOf(instant)))
  }

  // -- the comparison as a specification -------------------------------------------------------

  function Pick(costs: seq<TaskCost>, instant: Instant, cell: Cell): Option<TaskCost> {
    SelectAttempt(Members(InScope(costs), CELL_OF, cell), instant)
  }

  predicate IsArm(costs: seq<TaskCost>, mode: string) {
    exists c <- costs :: IsInScope(c) && c.mode == mode
  }

  predicate IsScoredIn(costs: seq<TaskCost>, task: string, mode: string) {
    exists c <- costs :: IsInScope(c) && c.normalizedScore.Some? && c.taskId == task && c.mode == mode
  }

  // Some arm scored `task`.
  predicate IsScoredSomewhere(costs: seq<TaskCost>, task: string) {
    exists c <- costs :: IsInScope(c) && c.normalizedScore.Some? && c.taskId == task
  }

  // Every arm that ran scored `task`.
  predicate IsMatched(costs: seq<TaskCost>, task: string) {
    IsScoredSomewhere(costs, task) && forall c <- costs :: IsInScope(c) ==> IsScoredIn(costs, task, c.mode)
  }

  function Row(task: string, modes: seq<string>): seq<Cell> {
    if modes == [] then [] else [Cell(task, modes[0])] + Row(task, modes[1..])
  }

  // The cells of some tasks, and within a task of some arms, in order.
  function Grid(tasks: seq<string>, modes: seq<string>): seq<Cell> {
    if tasks == [] then [] else Row(tasks[0], modes) + Grid(tasks[1..], modes)
  }

  function PicksOf(costs: seq<TaskCost>, instant: Instant, cells: seq<Cell>): seq<TaskCost> {
    if cells == [] then []
    else
      var pick := Pick(costs, instant, cells[0]);
      (if pick.Some? then [pick.value] else []) + PicksOf(costs, instant, cells[1..])
  }

  ghost predicate IsComparison(costs: seq<TaskCost>, instant: Instant, c: ComparisonSet) {
    && StrictlySorted(StringLe, c.modes) && (forall m :: m in c.modes <==> IsArm(costs, m))
    && StrictlySorted(StringLe, c.taskIds) && (forall t :: t in c.taskIds <==> IsMatched(costs, t))
    && StrictlySorted(StringLe, c.excluded)
    && (forall t :: t in c.excluded <==> IsScoredSomewhere(costs, t) && !IsMatched(costs, t))
    && c.rows == PicksOf(costs, instant, Grid(c.taskIds, c.modes))
  }

  // -- what is picked ---------------------------------------------------------------------------

  lemma {:induction false} InScopeAre(costs: seq<TaskCost>)
    ensures forall c :: c in InScope(costs) <==> c in costs && IsInScope(c)
  {
    if costs != [] {
      InScopeAre(costs[1..]);
      assert costs == [costs[0]] + costs[1..];
    }
  }

  lemma {:induction false} ScoredAre(attempts: seq<TaskCost>)
    ensures forall c :: c in Scored(attempts) <==> c in attempts && c.normalizedScore.Some?
  {
    if attempts != [] {
      ScoredAre(attempts[1..]);
      assert attempts == [attempts[0]] + attempts[1..];
    }
  }

  function CellAttempts(costs: seq<TaskCost>, cell: Cell): seq<TaskCost> {
    Scored(Members(InScope(costs), CELL_OF, cell))
  }

  lemma CellAttemptsAre(costs: seq<TaskCost>, cell: Cell)
    ensures forall c :: c in CellAttempts(costs, cell) <==>
              c in costs && IsInScope(c) && c.normalizedScore.Some? && CELL_OF(c) == cell
  {
    InScopeAre(costs);
    MembersAre(InScope(costs), CELL_OF, cell);
    ScoredAre(Members(InScope(costs), CELL_OF, cell));
  }

  lemma PickExists(costs: seq<TaskCost>, instant: Instant, task: string, mode: string)
    ensures Pick(costs, instant, Cell(task, mode)).Some? <==> IsScoredIn(costs, task, mode)
  {
    CellAttemptsAre(costs, Cell(task, mode));
    if IsScoredIn(costs, task, mode) {
      var c :| c in costs && IsInScope(c) && c.normalizedScore.Some? && c.taskId == task && c.mode == mode;
      assert c in CellAttempts(costs, Cell(task, mode));
    } else {
      assert forall c :: c !in CellAttempts(costs, Cell(task, mode));
    }
  }

  // -- the selection, step by step --------------------------------------------------------------

  ghost predicate AreSelected(selected: map<Cell, TaskCost>, costs: seq<TaskCost>, instant: Instant) {
    && (forall task, mode :: Cell(task, mode) in selected <==> IsScoredIn(costs, task, mode))
    && (forall cell <- selected :: Pick(costs, instant, cell) == Some(selected[cell]))
  }

  method SelectCells(costs: seq<TaskCost>, instant: Instant) returns (selected: map<Cell, TaskCost>)
    ensures AreSelected(selected, costs, instant)
  {
    var groups, order := GroupBy(InScope(costs), CELL_OF);
    selected := map[];
    for i := 0 to |order|
      invariant forall cell :: cell in selected <==> cell in order[..i] && Pick(costs, instant, cell).Some?
      invariant forall cell <- selected :: Pick(costs, instant, cell) == Some(selected[cell])
    {
      assert order[..i + 1] == order[..i] + [order[i]];
      var pick := SelectAttempt(groups[order[i]], instant);
      if pick.Some? {
        selected := selected[order[i] := pick.value];
      }
    }
    assert order[..|order|] == order;
    forall task, mode
      ensures Cell(task, mode) in selected <==> IsScoredIn(costs, task, mode)
    {
      PickExists(costs, instant, task, mode);
      assert Members(InScope(costs), CELL_OF, Cell(task, mode)) == [] ==> Pick(costs, instant, Cell(task, mode)).None?;
    }
  }

  ghost predicate AreArmsPerTask(arms: map<string, set<string>>, cells: set<Cell>) {
    && (forall t, m :: Cell(t, m) in cells <==> t in arms && m in arms[t])
    && (forall t <- arms :: arms[t] != {})
  }

  method ArmsPerTask(cells: set<Cell>) returns (arms: map<string, set<string>>)
    ensures AreArmsPerTask(arms, cells)
  {
    arms := map[];
    var rest := cells;
    while rest != {}
      invariant rest <= cells && AreArmsPerTask(arms, cells - rest)
    {
      var cell :| cell in rest;
      var before := if cell.task in arms then arms[cell.task] else {};
      arms := arms[cell.task := before + {cell.mode}];
      rest := rest - {cell};
    }
    assert cells - {} == cells;
  }

  lemma ArmsDecideMatching(costs: seq<TaskCost>, cells: set<Cell>, arms: map<string, set<string>>, modes: set<string>)
    requires forall t, m :: Cell(t, m) in cells <==> IsScoredIn(costs, t, m)
    requires AreArmsPerTask(arms, cells) && forall m :: m in modes <==> IsArm(costs, m)
    ensures forall t :: t in arms <==> IsScoredSomewhere(costs, t)
    ensures forall t <- arms :: arms[t] == modes <==> IsMatched(costs, t)
  {
    forall t
      ensures t in arms <==> IsScoredSomewhere(costs, t)
    {
      if t in arms {
        var m :| m in arms[t];
        assert Cell(t, m) in cells;
      }
      if IsScoredSomewhere(costs, t) {
        var c :| c in costs && IsInScope(c) && c.normalizedScore.Some? && c.taskId == t;
        assert IsScoredIn(costs, t, c.mode);
        assert Cell(t, c.mode) in cells;
      }
    }
    forall t <- arms
      ensures arms[t] == modes <==> IsMatched(costs, t)
    {
      MatchedHasEveryArm(costs, cells, arms, modes, t);
    }
  }

  lemma MatchedHasEveryArm(costs: seq<TaskCost>, cells: set<Cell>, arms: map<string, set<string>>, modes: set<string>,
                           t: string)
    requires forall t, m :: Cell(t, m) in cells <==> IsScoredIn(costs, t, m)
    requires AreArmsPerTask(arms, cells) && forall m :: m in modes <==> IsArm(costs, m)
    requires t in arms && IsScoredSomewhere(costs, t)
    ensures arms[t] == modes <==> IsMatched(costs, t)
  {
    forall m | m in arms[t]
      ensures m in modes
    {
      assert Cell(t, m) in cells;
      assert IsScoredIn(costs, t, m);
    }
    if arms[t] == modes {
      forall c | c in costs && IsInScope(c)
        ensures IsScoredIn(costs, t, c.mode)
      {
        assert IsArm(costs, c.mode);
        assert Cell(t, c.mode) in cells;
      }
    }
    if IsMatched(costs, t) {
      forall m | m in modes
        ensures m in arms[t]
      {
        var c :| c in costs && IsInScope(c) && c.mode == m;
        assert Cell(t, m) in cells;
      }
    }
  }

  // -- rows in order ----------------------------------------------------------------------------

  const CELL_LE: (Cell, Cell) -> bool :=
    (a: Cell, b: Cell) => if a.task != b.task then StringLe(a.task, b.task) else StringLe(a.mode, b.mode)

  lemma CellLeIsOrder()
    ensures IsPreorder(CELL_LE) && IsAntisymmetric(CELL_LE)
  {
    forall a, b
      ensures CELL_LE(a, b) || CELL_LE(b, a)
      ensures CELL_LE(a, b) && CELL_LE(b, a) ==> a == b
    {
      StringLeIsTotal(a.task, b.task);
      StringLeIsTotal(a.mode, b.mode);
    }
    forall a, b, c | CELL_LE(a, b) && CELL_LE(b, c)
      ensures CELL_LE(a, c)
    {
      CellLeIsTransitive(a, b, c);
    }
  }

  lemma CellLeIsTransitive(a: Cell, b: Cell, c: Cell)
    requires CELL_LE(a, b) && CELL_LE(b, c)
    ensures CELL_LE(a, c)
  {
    if a.task == b.task == c.task {
      StringLeIsTransitive(a.mode, b.mode, c.mode);
    } else if a.task != b.task && b.task != c.task {
      StringLeIsTransitive(a.task, b.task, c.task);
      StringLeIsTotal(a.task, b.task);
    }
  }

  lemma {:induction false} RowIs(task: string, modes: seq<string>)
    ensures |Row(task, modes)| == |modes|
    ensures forall j | 0 <= j < |modes| :: Row(task, modes)[j] == Cell(task, modes[j])
  {
    if modes != [] {
      RowIs(task, modes[1..]);
    }
  }

  lemma RowHolds(task: string, modes: seq<string>)
    ensures forall cell :: cell in Row(task, modes) <==> cell.task == task && cell.mode in modes
    ensures StrictlySorted(StringLe, modes) ==> StrictlySorted(CELL_LE, Row(task, modes))
  {
    RowIs(task, modes);
    forall cell
      ensures cell in Row(task, modes) <==> cell.task == task && cell.mode in modes
    {
      if cell.task == task && cell.mode in modes {
        var j :| 0 <= j < |modes| && modes[j] == cell.mode;
        assert Row(task, modes)[j] == cell;
      }
    }
  }

  lemma {:induction false} GridHolds(tasks: seq<string>, modes: seq<string>)
    ensures forall cell :: cell in Grid(tasks, modes) <==> cell.task in tasks && cell.mode in modes
  {
    if tasks != [] {
      RowHolds(tasks[0], modes);
      GridHolds(tasks[1..], modes);
      assert tasks == [tasks[0]] + tasks[1..];
    }
  }

  lemma {:induction false} GridIsSorted(tasks: seq<string>, modes: seq<string>)
    requires StrictlySorted(StringLe, tasks) && StrictlySorted(StringLe, modes)
    ensures StrictlySorted(CELL_LE, Grid(tasks, modes))
  {
    if tasks != [] {
      var task, rest := tasks[0], tasks[1..];
      RowHolds(task, modes);
      GridHolds(rest, modes);
      GridIsSorted(rest, modes);
      assert forall t <- rest :: StringLe(task, t) && task != t;
      StrictlySortedConcat(CELL_LE, Row(task, modes), Grid(rest, modes));
    }
  }

  lemma GridIs(tasks: seq<string>, modes: seq<string>)
    ensures forall cell :: cell in Grid(tasks, modes) <==> cell.task in tasks && cell.mode in modes
    ensures StrictlySorted(StringLe, tasks) && StrictlySorted(StringLe, modes) ==>
            StrictlySorted(CELL_LE, Grid(tasks, modes))
  {
    GridHolds(tasks, modes);
    if StrictlySorted(StringLe, tasks) && StrictlySorted(StringLe, modes) {
      GridIsSorted(tasks, modes);
    }
  }

  // The cells of matched tasks, as the comprehension filters them.
  function Matching(cells: seq<Cell>, matched: set<string>): seq<Cell> {
    if cells == [] then []
    else (if cells[0].task in matched then [cells[0]] else []) + Matching(cells[1..], matched)
  }

  lemma {:induction false} MatchingIs(cells: seq<Cell>, matched: set<string>)
    requires StrictlySorted(CELL_LE, cells)
    ensures forall cell :: cell in Matching(cells, matched) <==> cell in cells && cell.task in matched
    ensures StrictlySorted(CELL_LE, Matching(cells, matched))
  {
    if cells != [] {
      assert cells == [cells[0]] + cells[1..];
      MatchingIs(cells[1..], matched);
      if cells[0].task in matched {
        StrictlySortedConcat(CELL_LE, [cells[0]], Matching(cells[1..], matched));
      }
    }
  }

  method RowsOf(cells: seq<Cell>, selected: map<Cell, TaskCost>, matched: set<string>,
                ghost costs: seq<TaskCost>, ghost instant: Instant)
    returns (rows: seq<TaskCost>)
    requires forall cell <- cells :: cell in selected && Pick(costs, instant, cell) == Some(selected[cell])
    ensures rows == PicksOf(costs, instant, Matching(cells, matched))
  {
    rows := [];
    ghost var all := PicksOf(costs, instant, Matching(cells, matched));
    assert cells[0..] == cells && rows + all == all;
    for i := 0 to |cells|
      invariant rows + PicksOf(costs, instant, Matching(cells[i..], matched)) == all
    {
      var cell := cells[i];
      assert cell in cells && cells[i..][1..] == cells[i + 1..];
      if cell.task in matched {
        var rest := Matching(cells[i + 1..], matched);
        assert Matching(cells[i..], matched) == [cell] + rest && ([cell] + rest)[1..] == rest;
        Associate(rows, [selected[cell]], PicksOf(costs, instant, rest));
        rows := rows + [selected[cell]];
      } else {
        assert [] + Matching(cells[i + 1..], matched) == Matching(cells[i + 1..], matched);
      }
    }
    assert rows + [] == rows;
  }

  // Filtering the sorted cells leaves every matched task with every arm.
  lemma MatchingIsGrid(cells: seq<Cell>, selected: set<Cell>, arms: map<string, set<string>>, modes: set<string>,
                       matched: set<string>, taskIds: seq<string>, modeNames: seq<string>)
    requires AreArmsPerTask(arms, selected) && matched == set t | t in arms && arms[t] == modes
    requires StrictlySorted(CELL_LE, cells) && forall cell :: cell in cells <==> cell in selected
    requires StrictlySorted(StringLe, taskIds) && forall t :: t in taskIds <==> t in matched
    requires StrictlySorted(StringLe, modeNames) && forall m :: m in modeNames <==> m in modes
    ensures Matching(cells, matched) == Grid(taskIds, modeNames)
  {
    CellLeIsOrder();
    MatchingIs(cells, matched);
    GridIs(taskIds, modeNames);
    forall cell
      ensures cell in Matching(cells, matched) <==> cell in Grid(taskIds, modeNames)
    {
      assert cell == Cell(cell.task, cell.mode);
      assert cell in cells <==> cell.task in arms && cell.mode in arms[cell.task];
    }
    SortedElementsAreUnique(CELL_LE, Matching(cells, matched), Grid(taskIds, modeNames));
  }

  // The arms that ran, the arms that scored each task, and the tasks that every arm scored.
  method MatchTasks(costs: seq<TaskCost>, cells: set<Cell>)
    returns (modes: set<string>, arms: map<string, set<string>>, matched: set<string>)
    requires forall t, m :: Cell(t, m) in cells <==> IsScoredIn(costs, t, m)
    ensures AreArmsPerTask(arms, cells) && matched == set t | t in arms && arms[t] == modes
    ensures forall m :: m in modes <==> IsArm(costs, m)
    ensures forall t :: t in matched <==> IsMatched(costs, t)
    ensures forall t :: t in arms.Keys - matched <==> IsScoredSomewhere(costs, t) && !IsMatched(costs, t)
  {
    var inScope := InScope(costs);
    modes := set tc | tc in inScope :: tc.mode;
    ModesAreArms(costs, modes);
    arms := ArmsPerTask(cells);
    ArmsDecideMatching(costs, cells, arms, modes);
    matched := set t | t in arms && arms[t] == modes;
  }

  lemma ModesAreArms(costs: seq<TaskCost>, modes: set<string>)
    requires modes == set tc | tc in InScope(costs) :: tc.mode
    ensures forall m :: m in modes <==> IsArm(costs, m)
  {
    InScopeAre(costs);
  }

  method ComparisonAttempts(costs: seq<TaskCost>, instant: Instant) returns (c: ComparisonSet)
    ensures IsComparison(costs, instant, c)
  {
    var selected := SelectCells(costs, instant);
    var modes, arms, matched := MatchTasks(costs, selected.Keys);
    StringLeIsPreorder();
    CellLeIsOrder();
    var cells := SortedElements(CELL_LE, selected.Keys);
    var taskIds := SortedElements(StringLe, matched);
    var modeNames := SortedElements(StringLe, modes);
    var excluded := SortedElements(StringLe, arms.Keys - matched);
    var rows := RowsOf(cells, selected, matched, costs, instant);
    MatchingIsGrid(cells, selected.Keys, arms, modes, matched, taskIds, modeNames);
    c := ComparisonSet(rows, taskIds, modeNames, excluded);
  }
}
