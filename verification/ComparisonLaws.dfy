// What the matched comparison guarantees: no arm is ever dropped from it, and what it selects depends
// on when and where an attempt ran and on nothing else.
module ComparisonLaws {
  import opened Arithmetic
  import opened Wrappers
  import opened Sequences
  import opened Sorting
  import opened Grouping
  import opened AttemptPolicy
  import opened Comparison

  // -- one row per task and arm -----------------------------------------------------------------

  lemma PickIsScored(costs: seq<TaskCost>, instant: Instant, cell: Cell)
    ensures var pick := Pick(costs, instant, cell);
            pick.Some? ==>
              && pick.value in costs && IsInScope(pick.value) && pick.value.normalizedScore.Some?
              && CELL_OF(pick.value) == cell
  {
    CellAttemptsAre(costs, cell);
    if CellAttempts(costs, cell) != [] {
      EarliestIsLeast(CellAttempts(costs, cell), KeyOf(instant));
    }
  }

  lemma MatchedCellsArePicked(costs: seq<TaskCost>, instant: Instant, c: ComparisonSet, cell: Cell)
    requires IsComparison(costs, instant, c) && cell.task in c.taskIds && cell.mode in c.modes
    ensures Pick(costs, instant, cell).Some?
  {
    var a :| a in costs && IsInScope(a) && a.mode == cell.mode;
    PickExists(costs, instant, cell.task, cell.mode);
    assert cell == Cell(cell.task, cell.mode);
  }

  lemma {:induction false} PicksArePointwise(costs: seq<TaskCost>, instant: Instant, cells: seq<Cell>)
    requires forall cell <- cells :: Pick(costs, instant, cell).Some?
    ensures |PicksOf(costs, instant, cells)| == |cells|
    ensures forall k | 0 <= k < |cells| :: Pick(costs, instant, cells[k]) == Some(PicksOf(costs, instant, cells)[k])
  {
    if cells != [] {
      assert forall cell <- cells[1..] :: cell in cells;
      PicksArePointwise(costs, instant, cells[1..]);
    }
  }

  function RowIndex(i: nat, j: nat, arms: nat): nat {
    i * arms + j
  }

  lemma RowIndexFits(i: nat, j: nat, tasks: nat, arms: nat)
    requires i < tasks && j < arms
    ensures RowIndex(i, j, arms) < tasks * arms
  {
    Scaled(i, tasks, arms);
  }

  lemma {:induction false} GridIsRowMajor(tasks: seq<string>, modes: seq<string>)
    ensures |Grid(tasks, modes)| == |tasks| * |modes|
  {
    if tasks != [] {
      RowIs(tasks[0], modes);
      GridIsRowMajor(tasks[1..], modes);
    }
  }

  lemma {:induction false} GridCell(tasks: seq<string>, modes: seq<string>, i: nat, j: nat)
    requires i < |tasks| && j < |modes|
    ensures RowIndex(i, j, |modes|) < |Grid(tasks, modes)|
    ensures Grid(tasks, modes)[RowIndex(i, j, |modes|)] == Cell(tasks[i], modes[j])
  {
    GridIsRowMajor(tasks, modes);
    RowIndexFits(i, j, |tasks|, |modes|);
    RowIs(tasks[0], modes);
    if i > 0 {
      GridCell(tasks[1..], modes, i - 1, j);
      OneRowOn(i, j, |modes|);
    }
  }

  lemma OneRowOn(i: nat, j: nat, arms: nat)
    requires i > 0
    ensures RowIndex(i, j, arms) == arms + RowIndex(i - 1, j, arms)
  {
  }

  // The comparison is a full rectangle: task by task and arm by arm, one attempt that was paid for
  // and scored.
  lemma ComparisonIsRectangle(costs: seq<TaskCost>, instant: Instant, c: ComparisonSet, i: nat, j: nat)
    requires IsComparison(costs, instant, c)
    ensures |c.rows| == |c.taskIds| * |c.modes|
    ensures i < |c.taskIds| && j < |c.modes| ==>
              RowIndex(i, j, |c.modes|) < |c.rows| &&
              var row := c.rows[RowIndex(i, j, |c.modes|)];
              && row in costs && IsInScope(row) && row.normalizedScore.Some?
              && row.taskId == c.taskIds[i] && row.mode == c.modes[j]
  {
    var grid := Grid(c.taskIds, c.modes);
    GridIs(c.taskIds, c.modes);
    forall cell <- grid
      ensures Pick(costs, instant, cell).Some?
    {
      MatchedCellsArePicked(costs, instant, c, cell);
    }
    PicksArePointwise(costs, instant, grid);
    GridIsRowMajor(c.taskIds, c.modes);
    if i < |c.taskIds| && j < |c.modes| {
      GridCell(c.taskIds, c.modes, i, j);
      PickIsScored(costs, instant, Cell(c.taskIds[i], c.modes[j]));
    }
  }

  // The row of a cell is the earliest of the scored attempts at it: no attempt can be dated where the row
  // cannot, none has an earlier moment, and of those at the same moment the row has the first directory.
  lemma RowIsEarliest(costs: seq<TaskCost>, instant: Instant, c: ComparisonSet, row: TaskCost, other: TaskCost)
    requires IsComparison(costs, instant, c) && row in c.rows
    requires other in costs && IsInScope(other) && other.normalizedScore.Some?
    requires other.taskId == row.taskId && other.mode == row.mode
    ensures var m, m' := instant(row.timestamp), instant(other.timestamp);
            && m.flag <= m'.flag
            && (m.flag == m'.flag ==> m.at <= m'.at)
            && (m == m' ==> ComesFirst(row.runDir, other.runDir))
  {
    RowIsPick(costs, instant, c, row);
    CellAttemptsAre(costs, CELL_OF(row));
    EarliestIsLeast(CellAttempts(costs, CELL_OF(row)), KeyOf(instant));
    KeysAreChronological(row.timestamp, row.runDir, other.timestamp, other.runDir, instant);
  }

  // Every scored attempt without a label in one of the seven modes names its task, as matched or as
  // excluded; no other attempt is in a row.
  lemma EveryScoredTaskIsNamed(costs: seq<TaskCost>, instant: Instant, c: ComparisonSet, a: TaskCost)
    requires IsComparison(costs, instant, c) && a in costs
    ensures var modes :=
              {"baseline", "mcp_only", "mcp_code_finder", "mcp_assisted", "hybrid", "cli", "cli_code_finder"};
            && (a.mode in modes && a.variantLabel.None? ==> a.mode in c.modes)
            && (a.mode in modes && a.variantLabel.None? && a.normalizedScore.Some? ==>
                  (a.taskId in c.taskIds) != (a.taskId in c.excluded))
            && (a in c.rows ==> a.mode in modes && a.variantLabel.None? && a.normalizedScore.Some?)
  {
    if a in c.rows {
      RowIsPick(costs, instant, c, a);
      PickIsScored(costs, instant, CELL_OF(a));
    }
  }

  predicate IsScoredAt(a: TaskCost, task: string, mode: string) {
    a.taskId == task && a.mode == mode && a.variantLabel.None? && a.normalizedScore.Some?
  }

  // A task is compared if it was scored in every arm that was run at all; tasks and arms are listed in order.
  lemma MatchIsExact(costs: seq<TaskCost>, instant: Instant, c: ComparisonSet, task: string)
    requires IsComparison(costs, instant, c)
    ensures task in c.taskIds <==> c.modes != [] && forall m <- c.modes :: exists a <- costs :: IsScoredAt(a, task, m)
    ensures forall i, j | 0 <= i < j < |c.taskIds| ::
              c.taskIds[i] != c.taskIds[j] && ComesFirst(c.taskIds[i], c.taskIds[j])
    ensures forall i, j | 0 <= i < j < |c.modes| :: c.modes[i] != c.modes[j] && ComesFirst(c.modes[i], c.modes[j])
  {
    MatchedInEveryArm(costs, instant, c, task);
    forall a, b
      ensures StringLe(a, b) <==> ComesFirst(a, b)
    {
      StringLeIsLexicographic(a, b);
    }
  }

  lemma MatchedInEveryArm(costs: seq<TaskCost>, instant: Instant, c: ComparisonSet, task: string)
    requires IsComparison(costs, instant, c)
    ensures task in c.taskIds <==> c.modes != [] && forall m <- c.modes :: exists a <- costs :: IsScoredAt(a, task, m)
  {
    if task in c.taskIds {
      var a :| a in costs && IsInScope(a) && a.normalizedScore.Some? && a.taskId == task;
      assert IsArm(costs, a.mode);
      forall m | m in c.modes
        ensures exists b <- costs :: IsScoredAt(b, task, m)
      {
        var x :| x in costs && IsInScope(x) && x.mode == m;
        assert IsScoredIn(costs, task, x.mode);
      }
    }
    if c.modes != [] && forall m <- c.modes :: exists a <- costs :: IsScoredAt(a, task, m) {
      ScoredInEveryArm(costs, c.modes, task);
    }
  }

  lemma ScoredInEveryArm(costs: seq<TaskCost>, modes: seq<string>, task: string)
    requires modes != [] && forall m :: m in modes <==> IsArm(costs, m)
    requires forall m <- modes :: exists a <- costs :: IsScoredAt(a, task, m)
    ensures IsMatched(costs, task)
  {
    forall x | x in costs && IsInScope(x)
      ensures IsScoredIn(costs, task, x.mode)
    {
      assert IsArm(costs, x.mode);
      var a :| a in costs && IsScoredAt(a, task, x.mode);
      assert IsInScope(a);
    }
    assert modes[0] in modes;
    var x :| x in costs && IsInScope(x) && x.mode == modes[0];
    assert IsScoredIn(costs, task, x.mode);
  }

  lemma RowIsPick(costs: seq<TaskCost>, instant: Instant, c: ComparisonSet, row: TaskCost)
    requires IsComparison(costs, instant, c) && row in c.rows
    ensures Pick(costs, instant, CELL_OF(row)) == Some(row)
    ensures row.taskId in c.taskIds && row.mode in c.modes
  {
    var grid := Grid(c.taskIds, c.modes);
    GridIs(c.taskIds, c.modes);
    forall cell <- grid
      ensures Pick(costs, instant, cell).Some?
    {
      MatchedCellsArePicked(costs, instant, c, cell);
    }
    PicksArePointwise(costs, instant, grid);
    var k :| 0 <= k < |c.rows| && c.rows[k] == row;
    assert grid[k] in grid;
    PickIsScored(costs, instant, grid[k]);
  }

  // An arm that ran but scored nothing keeps its seat: nothing matches, and every task that some
  // other arm scored is named as excluded.
  lemma SilentArmEmptiesTheMatch(costs: seq<TaskCost>, instant: Instant, c: ComparisonSet, arm: string)
    requires IsComparison(costs, instant, c)
    requires IsArm(costs, arm) && forall a <- costs :: IsInScope(a) && a.mode == arm ==> a.normalizedScore.None?
    ensures c.taskIds == [] && c.rows == [] && arm in c.modes
    ensures forall a <- costs :: IsInScope(a) && a.normalizedScore.Some? ==> a.taskId in c.excluded
  {
    var seat :| seat in costs && IsInScope(seat) && seat.mode == arm;
    forall t
      ensures !IsMatched(costs, t)
    {
      assert !IsScoredIn(costs, t, seat.mode);
    }
    FirstIsIn(c.taskIds);
    ComparisonIsRectangle(costs, instant, c, 0, 0);
    forall a | a in costs && IsInScope(a) && a.normalizedScore.Some?
      ensures a.taskId in c.excluded
    {
      assert IsScoredSomewhere(costs, a.taskId);
    }
  }

  // -- what the selection reads -------------------------------------------------------------------

  // The same attempt as far as the selection can tell: what it cost, how it scored and how its
  // tokens were counted may all differ.
  predicate SameIdentity(a: TaskCost, b: TaskCost) {
    && a.taskId == b.taskId && a.mode == b.mode && a.variantLabel == b.variantLabel
    && a.normalizedScore.Some? == b.normalizedScore.Some?
    && a.timestamp == b.timestamp && a.runDir == b.runDir
  }

  predicate HasCounterpart(x: TaskCost, b: seq<TaskCost>) {
    exists y <- b :: SameIdentity(x, y)
  }

  // Every attempt of `a` has a counterpart in `b`.
  predicate Covers(a: seq<TaskCost>, b: seq<TaskCost>) {
    a == [] || (HasCounterpart(a[0], b) && Covers(a[1..], b))
  }

  lemma {:induction false} CounterpartOf(a: seq<TaskCost>, b: seq<TaskCost>, x: TaskCost) returns (y: TaskCost)
    requires Covers(a, b) && x in a
    ensures y in b && SameIdentity(x, y)
  {
    if x == a[0] {
      y :| y in b && SameIdentity(x, y);
    } else {
      assert x in a[1..];
      y := CounterpartOf(a[1..], b, x);
    }
  }

  lemma CoveredScore(a: seq<TaskCost>, b: seq<TaskCost>, task: string, mode: string)
    requires Covers(a, b) && IsScoredIn(a, task, mode)
    ensures IsScoredIn(b, task, mode)
  {
    var x :| x in a && IsInScope(x) && x.normalizedScore.Some? && x.taskId == task && x.mode == mode;
    var y := CounterpartOf(a, b, x);
  }

  lemma CoveredTask(a: seq<TaskCost>, b: seq<TaskCost>, task: string)
    requires Covers(a, b) && IsScoredSomewhere(a, task)
    ensures IsScoredSomewhere(b, task)
  {
    var x :| x in a && IsInScope(x) && x.normalizedScore.Some? && x.taskId == task;
    var y := CounterpartOf(a, b, x);
  }

  lemma CoveredArm(a: seq<TaskCost>, b: seq<TaskCost>, mode: string)
    requires Covers(a, b) && IsArm(a, mode)
    ensures IsArm(b, mode)
  {
    var x :| x in a && IsInScope(x) && x.mode == mode;
    var y := CounterpartOf(a, b, x);
  }

  lemma CoveredMatch(a: seq<TaskCost>, b: seq<TaskCost>, task: string)
    requires Covers(a, b) && Covers(b, a) && IsMatched(a, task)
    ensures IsMatched(b, task)
  {
    CoveredTask(a, b, task);
    forall y | y in b && IsInScope(y)
      ensures IsScoredIn(b, task, y.mode)
    {
      var x := CounterpartOf(b, a, y);
      CoveredScore(a, b, task, x.mode);
    }
  }

  lemma CoveredAttempts(a: seq<TaskCost>, b: seq<TaskCost>, instant: Instant, cell: Cell)
    requires Covers(a, b)
    ensures KeysOf(CellAttempts(a, cell), KeyOf(instant)) <= KeysOf(CellAttempts(b, cell), KeyOf(instant))
  {
    CellAttemptsAre(a, cell);
    CellAttemptsAre(b, cell);
    forall x | x in CellAttempts(a, cell)
      ensures KeyOf(instant)(x) in KeysOf(CellAttempts(b, cell), KeyOf(instant))
    {
      var y := CounterpartOf(a, b, x);
      assert y in CellAttempts(b, cell);
    }
  }

  lemma CoveredPick(a: seq<TaskCost>, b: seq<TaskCost>, instant: Instant, cell: Cell)
    requires Covers(a, b) && Covers(b, a)
    requires Pick(a, instant, cell).Some? && Pick(b, instant, cell).Some?
    ensures KeyOf(instant)(Pick(a, instant, cell).value) == KeyOf(instant)(Pick(b, instant, cell).value)
  {
    CoveredAttempts(a, b, instant, cell);
    CoveredAttempts(b, a, instant, cell);
    SameKeysSameChoice(CellAttempts(a, cell), KeyOf(instant), CellAttempts(b, cell), KeyOf(instant));
  }

  // Listing the attempts in another order, listing one twice, or changing any score, cost or token
  // count leaves the matched tasks, the arms, the exclusions and the run chosen for every cell.
  lemma ComparisonReadsIdentitiesOnly(a: seq<TaskCost>, b: seq<TaskCost>, instant: Instant, c: ComparisonSet,
                                      d: ComparisonSet)
    requires IsComparison(a, instant, c) && IsComparison(b, instant, d) && Covers(a, b) && Covers(b, a)
    ensures c.taskIds == d.taskIds && c.modes == d.modes && c.excluded == d.excluded && |c.rows| == |d.rows|
    ensures forall k | 0 <= k < |c.rows| ::
              CELL_OF(c.rows[k]) == CELL_OF(d.rows[k]) && c.rows[k].runDir == d.rows[k].runDir
  {
    SameComparison(a, b, instant, c, d);
    var grid := Grid(c.taskIds, c.modes);
    GridIs(c.taskIds, c.modes);
    forall cell <- grid
      ensures Pick(a, instant, cell).Some? && Pick(b, instant, cell).Some?
    {
      MatchedCellsArePicked(a, instant, c, cell);
      MatchedCellsArePicked(b, instant, d, cell);
    }
    PicksArePointwise(a, instant, grid);
    PicksArePointwise(b, instant, grid);
    forall k | 0 <= k < |c.rows|
      ensures CELL_OF(c.rows[k]) == CELL_OF(d.rows[k]) && c.rows[k].runDir == d.rows[k].runDir
    {
      CoveredPick(a, b, instant, grid[k]);
      PickIsScored(a, instant, grid[k]);
      PickIsScored(b, instant, grid[k]);
    }
  }

  lemma SameTasks(a: seq<TaskCost>, b: seq<TaskCost>, instant: Instant, c: ComparisonSet, d: ComparisonSet)
    requires IsComparison(a, instant, c) && IsComparison(b, instant, d) && Covers(a, b) && Covers(b, a)
    ensures forall t <- c.taskIds :: t in d.taskIds
    ensures forall m <- c.modes :: m in d.modes
    ensures forall t <- c.excluded :: t in d.excluded
  {
    forall t <- c.taskIds
      ensures t in d.taskIds
    {
      CoveredMatch(a, b, t);
    }
    forall m <- c.modes
      ensures m in d.modes
    {
      CoveredArm(a, b, m);
    }
    forall t <- c.excluded
      ensures t in d.excluded
    {
      CoveredTask(a, b, t);
      if IsMatched(b, t) {
        CoveredMatch(b, a, t);
      }
    }
  }

  lemma SameComparison(a: seq<TaskCost>, b: seq<TaskCost>, instant: Instant, c: ComparisonSet, d: ComparisonSet)
    requires IsComparison(a, instant, c) && IsComparison(b, instant, d) && Covers(a, b) && Covers(b, a)
    ensures c.taskIds == d.taskIds && c.modes == d.modes && c.excluded == d.excluded
  {
    StringLeIsPreorder();
    SameTasks(a, b, instant, c, d);
    SameTasks(b, a, instant, d, c);
    SortedElementsAreUnique(StringLe, c.taskIds, d.taskIds);
    SortedElementsAreUnique(StringLe, c.modes, d.modes);
    SortedElementsAreUnique(StringLe, c.excluded, d.excluded);
  }

  // -- slices of the view --------------------------------------------------------------------------

  datatype Bucket = Bucket(count: nat, costMicros: int, inputTokens: int, outputTokens: int)

  // What one slice is divided by: its attempts, or the tasks they cover.
  type Denominator = seq<TaskCost> -> nat

  function TasksOf(items: seq<TaskCost>): set<string> {
    set c | c in items :: c.taskId
  }

  const ATTEMPTS: Denominator := (items: seq<TaskCost>) => |items|

  const DISTINCT_TASKS: Denominator := (items: seq<TaskCost>) => |TasksOf(items)|

  function Sum(items: seq<TaskCost>, amount: TaskCost -> int): int {
    if items == [] then 0 else amount(items[0]) + Sum(items[1..], amount)
  }

  const COST: TaskCost -> int := (c: TaskCost) => c.costMicros

  const INPUT: TaskCost -> int := (c: TaskCost) => c.inputTokens

  const OUTPUT: TaskCost -> int := (c: TaskCost) => c.outputTokens

  function BucketOf(items: seq<TaskCost>, denominator: Denominator): Bucket {
    Bucket(denominator(items), Sum(items, COST), Sum(items, INPUT), Sum(items, OUTPUT))
  }

  method Buckets(items: seq<TaskCost>, dimension: TaskCost -> string, denominator: Denominator)
    returns (buckets: map<string, Bucket>)
    ensures forall k :: k in buckets <==> exists c <- items :: dimension(c) == k
    ensures forall k <- buckets :: buckets[k] == BucketOf(Members(items, dimension, k), denominator)
  {
    var groups, order := GroupBy(items, dimension);
    buckets := map[];
    for i := 0 to |order|
      invariant forall k :: k in buckets <==> k in order[..i]
      invariant forall k <- buckets :: buckets[k] == BucketOf(Members(items, dimension, k), denominator)
    {
      assert order[..i + 1] == order[..i] + [order[i]];
      buckets := buckets[order[i] := BucketOf(groups[order[i]], denominator)];
    }
    assert order[..|order|] == order;
    forall k
      ensures k in buckets <==> exists c <- items :: dimension(c) == k
    {
      MembersAre(items, dimension, k);
      assert Members(items, dimension, k) == [] || Members(items, dimension, k)[0] in Members(items, dimension, k);
    }
  }

  lemma {:induction false} SumOfConcat(a: seq<TaskCost>, b: seq<TaskCost>, amount: TaskCost -> int)
    ensures Sum(a + b, amount) == Sum(a, amount) + Sum(b, amount)
  {
    if a == [] {
      assert a + b == b;
    } else {
      assert (a + b)[1..] == a[1..] + b;
      SumOfConcat(a[1..], b, amount);
    }
  }

  lemma SumOfOne(c: TaskCost, amount: TaskCost -> int)
    ensures Sum([c], amount) == amount(c)
  {
    assert [c][1..] == [];
  }

  // The amounts of a slice are those of its attempts, one by one.
  lemma BucketOfConcat(a: seq<TaskCost>, b: seq<TaskCost>, c: TaskCost, d: Denominator)
    ensures BucketOf([c], d) == Bucket(d([c]), c.costMicros, c.inputTokens, c.outputTokens)
    ensures var x, y := BucketOf(a, d), BucketOf(b, d);
            BucketOf(a + b, d) == Bucket(d(a + b), x.costMicros + y.costMicros, x.inputTokens + y.inputTokens,
                                         x.outputTokens + y.outputTokens)
  {
    SumOfConcat(a, b, COST);
    SumOfConcat(a, b, INPUT);
    SumOfConcat(a, b, OUTPUT);
    SumOfOne(c, COST);
    SumOfOne(c, INPUT);
    SumOfOne(c, OUTPUT);
  }

  // What the slices at `keys` add up to.
  function SumOfSlices(items: seq<TaskCost>, dimension: TaskCost -> string, keys: seq<string>,
                       amount: TaskCost -> int): int {
    if keys == [] then 0
    else Sum(Members(items, dimension, keys[0]), amount) + SumOfSlices(items, dimension, keys[1..], amount)
  }

  lemma {:induction false} SlicesGain(x: TaskCost, rest: seq<TaskCost>, dimension: TaskCost -> string,
                                      keys: seq<string>, amount: TaskCost -> int)
    requires Distinct(keys)
    ensures SumOfSlices([x] + rest, dimension, keys, amount)
         == SumOfSlices(rest, dimension, keys, amount) + (if dimension(x) in keys then amount(x) else 0)
  {
    if keys != [] {
      DistinctFromHead(keys);
      assert keys == [keys[0]] + keys[1..];
      SlicesGain(x, rest, dimension, keys[1..], amount);
      assert ([x] + rest)[1..] == rest;
      var members := Members(rest, dimension, keys[0]);
      assert ([x] + members)[1..] == members && [] + members == members;
    }
  }

  // Whatever a view is sliced by, its slices account for every dollar and every token once.
  lemma {:induction false} SlicesConserve(items: seq<TaskCost>, dimension: TaskCost -> string, keys: seq<string>,
                                             amount: TaskCost -> int)
    requires Distinct(keys) && forall c <- items :: dimension(c) in keys
    ensures SumOfSlices(items, dimension, keys, amount) == Sum(items, amount)
  {
    if items == [] {
      NothingToSlice(dimension, keys, amount);
    } else {
      assert items == [items[0]] + items[1..];
      SlicesGain(items[0], items[1..], dimension, keys, amount);
      SlicesConserve(items[1..], dimension, keys, amount);
    }
  }

  lemma {:induction false} NothingToSlice(dimension: TaskCost -> string, keys: seq<string>, amount: TaskCost -> int)
    ensures SumOfSlices([], dimension, keys, amount) == 0
  {
    if keys != [] {
      NothingToSlice(dimension, keys[1..], amount);
    }
  }

  const BY_MODE: TaskCost -> string := (c: TaskCost) => c.mode

  lemma ArmHasTask(costs: seq<TaskCost>, instant: Instant, c: ComparisonSet, arm: string, task: string)
    requires IsComparison(costs, instant, c) && arm in c.modes && task in c.taskIds
    ensures exists row <- Members(c.rows, BY_MODE, arm) :: row.taskId == task
  {
    var i :| 0 <= i < |c.taskIds| && c.taskIds[i] == task;
    var j :| 0 <= j < |c.modes| && c.modes[j] == arm;
    ComparisonIsRectangle(costs, instant, c, i, j);
    MembersAre(c.rows, BY_MODE, arm);
    assert c.rows[RowIndex(i, j, |c.modes|)] in Members(c.rows, BY_MODE, arm);
  }

  lemma RowsAreDistinct(costs: seq<TaskCost>, instant: Instant, c: ComparisonSet)
    requires IsComparison(costs, instant, c)
    ensures Distinct(c.rows)
  {
    var grid := Grid(c.taskIds, c.modes);
    GridIs(c.taskIds, c.modes);
    forall cell <- grid
      ensures Pick(costs, instant, cell).Some?
    {
      MatchedCellsArePicked(costs, instant, c, cell);
    }
    PicksArePointwise(costs, instant, grid);
    forall i, j | 0 <= i < j < |c.rows|
      ensures c.rows[i] != c.rows[j]
    {
      PickIsScored(costs, instant, grid[i]);
      PickIsScored(costs, instant, grid[j]);
    }
  }

  // Within an arm a row is a task.
  lemma ArmListsTasksOnce(costs: seq<TaskCost>, instant: Instant, c: ComparisonSet, arm: string)
    requires IsComparison(costs, instant, c)
    ensures |TasksOf(Members(c.rows, BY_MODE, arm))| == |Members(c.rows, BY_MODE, arm)|
  {
    var items := Members(c.rows, BY_MODE, arm);
    RowsAreDistinct(costs, instant, c);
    MembersKeepDistinct(c.rows, BY_MODE, arm);
    MembersAre(c.rows, BY_MODE, arm);
    var ids := seq(|items|, i requires 0 <= i < |items| => items[i].taskId);
    forall i, j | 0 <= i < j < |ids|
      ensures ids[i] != ids[j]
    {
      assert items[i] in items && items[j] in items;
      RowIsPick(costs, instant, c, items[i]);
      RowIsPick(costs, instant, c, items[j]);
    }
    SizeOfDistinct(ids);
    assert TasksOf(items) == (set id | id in ids) by {
      forall x | x in items
        ensures x.taskId in ids
      {
        var i :| 0 <= i < |items| && items[i] == x;
        assert ids[i] == x.taskId;
      }
    }
  }

  lemma ArmCoversMatched(costs: seq<TaskCost>, instant: Instant, c: ComparisonSet, arm: string)
    requires IsComparison(costs, instant, c) && arm in c.modes
    ensures TasksOf(Members(c.rows, BY_MODE, arm)) == set t | t in c.taskIds
  {
    var items := Members(c.rows, BY_MODE, arm);
    MembersAre(c.rows, BY_MODE, arm);
    forall x | x in items
      ensures x.taskId in c.taskIds
    {
      RowIsPick(costs, instant, c, x);
    }
    forall t | t in c.taskIds
      ensures exists x <- items :: x.taskId == t
    {
      ArmHasTask(costs, instant, c, arm, t);
    }
  }

  // Every arm of the comparison is averaged over the same tasks, all the matched ones, and within
  // it counting tasks is counting attempts.
  lemma ArmsCountTheSameTasks(costs: seq<TaskCost>, instant: Instant, c: ComparisonSet, arm: string)
    requires IsComparison(costs, instant, c) && arm in c.modes
    ensures BucketOf(Members(c.rows, BY_MODE, arm), DISTINCT_TASKS).count == |c.taskIds|
    ensures BucketOf(Members(c.rows, BY_MODE, arm), ATTEMPTS).count == |c.taskIds|
  {
    ArmCoversMatched(costs, instant, c, arm);
    SizeOfDistinct(c.taskIds);
    ArmListsTasksOnce(costs, instant, c, arm);
  }
}
