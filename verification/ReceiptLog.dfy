// The append-only log of a study: how one process appends and reads, and what holds in every
// interleaving of many processes that append to the same file.
module ReceiptLog {
  import opened Wrappers
  import opened Sequences
  import opened Receipts

  // A line of the file: white space, of which a decoder of JSON may or may not skip all, no JSON at all,
  // or a JSON value.
  datatype Line = Blank(isJsonSpace: bool) | Garbage | Payload(json: Json)

  // The lines of the file, and whether the last of them has its line end.
  datatype File = File(lines: seq<Line>, ended: bool)

  datatype LogError = NotJson(line: nat) | Malformed(line: nat, why: Rejection) | AlreadyExists

  type Reading = Result<seq<Receipt>, LogError>

  // The receipts on `lines`; the first line that is not one decides the error.
  function Parse(lines: seq<Line>, lineno: nat := 1): Reading
    decreases |lines|
  {
    if lines == [] then Success([]) else Joined(ParseLine(lines[0], lineno), Parse(lines[1..], lineno + 1))
  }

  function ParseLine(line: Line, lineno: nat): Reading {
    match line
    case Blank(_) => Success([])
    case Garbage => Failure(NotJson(lineno))
    case Payload(json) =>
      match FromJson(json)
      case Failure(why) => Failure(Malformed(lineno, why))
      case Success(r) => Success([r])
  }

  // What two readings come to, one after the other.
  function Joined(first: Reading, second: Reading): Reading {
    if first.Failure? then first
    else if second.Failure? then second
    else Success(first.value + second.value)
  }

  lemma JoinedIsAssociative(a: Reading, b: Reading, c: Reading)
    ensures Joined(Joined(a, b), c) == Joined(a, Joined(b, c))
  {
    if a.Success? && b.Success? && c.Success? {
      assert (a.value + b.value) + c.value == a.value + (b.value + c.value);
    }
  }

  lemma JoinedToNothing(a: Reading)
    ensures Joined(Success([]), a) == a && Joined(a, Success([])) == a
  {
    if a.Success? {
      assert [] + a.value == a.value && a.value + [] == a.value;
    }
  }

  predicate HasTrial(rs: seq<Receipt>, t: TrialID) {
    exists r <- rs :: r.trial == t
  }

  function LinesOf(rs: seq<Receipt>): seq<Line> {
    if rs == [] then [] else [Payload(ToJson(rs[0]))] + LinesOf(rs[1..])
  }

  // What becomes of a last line without a line end when `line`, a JSON object, is written after it: only
  // white space leaves the object readable, two JSON values on one line are no JSON.
  function Glued(last: Line, line: Line): Line {
    if last == Blank(true) then line else Garbage
  }

  // Writing at the end of the file starts a new line only where the last one is ended.
  function Put(f: File, line: Line): File {
    if f.ended || f.lines == [] then File(f.lines + [line], true)
    else
      var n := |f.lines| - 1;
      File(f.lines[..n] + [Glued(f.lines[n], line)], true)
  }

  function PutAll(f: File, rs: seq<Receipt>): File
    decreases |rs|
  {
    if rs == [] then f else PutAll(Put(f, Payload(ToJson(rs[0]))), rs[1..])
  }

  // What is written next has a line of its own.
  predicate IsEnded(f: File) {
    f.ended || f.lines == []
  }

  // What is written next can be read.
  predicate TakesEntries(f: File) {
    IsEnded(f) || f.lines[|f.lines| - 1] == Blank(true)
  }

  // -- one process -------------------------------------------------------------

  lemma UnfoldParse(done: Reading, lines: seq<Line>, i: nat)
    requires i < |lines|
    ensures Joined(done, Parse(lines[i..], i + 1))
         == Joined(Joined(done, ParseLine(lines[i], i + 1)), Parse(lines[i + 1..], i + 2))
  {
    assert lines[i..][1..] == lines[i + 1..];
    JoinedIsAssociative(done, ParseLine(lines[i], i + 1), Parse(lines[i + 1..], i + 2));
  }

  method ParseLines(lines: seq<Line>) returns (result: Result<seq<Receipt>, LogError>)
    ensures result == Parse(lines)
  {
    var receipts: seq<Receipt> := [];
    assert lines[0..] == lines;
    JoinedToNothing(Parse(lines));
    for i := 0 to |lines|
      invariant Joined(Success(receipts), Parse(lines[i..], i + 1)) == Parse(lines)
    {
      UnfoldParse(Success(receipts), lines, i);
      match lines[i]
      case Blank(_) => JoinedToNothing(Success(receipts));
      case Garbage => return Failure(NotJson(i + 1));
      case Payload(json) =>
        match FromJson(json)
        case Failure(why) => return Failure(Malformed(i + 1, why));
        case Success(r) => receipts := receipts + [r];
    }
    JoinedToNothing(Success(receipts));
    return Success(receipts);
  }

  method Holds(rs: seq<Receipt>, t: TrialID) returns (found: bool)
    ensures found == HasTrial(rs, t)
  {
    for i := 0 to |rs|
      invariant forall k | 0 <= k < i :: rs[k].trial != t
    {
      if rs[i].trial == t {
        assert rs[i] in rs;
        return true;
      }
    }
    return false;
  }

  class LogFile {
    var lines: seq<Line>
    var ended: bool

    constructor ()
      ensures Contents() == File([], true)
    {
      lines, ended := [], true;
    }

    function Contents(): File
      reads this
    {
      File(lines, ended)
    }

    // Append under the lock, unless the file cannot be parsed or already holds the trial.
    method Append(receipt: Receipt) returns (result: Result<(), LogError>)
      modifies this
      ensures result == match Parse(old(lines))
                        case Failure(e) => Failure(e)
                        case Success(rs) => if HasTrial(rs, receipt.trial) then Failure(AlreadyExists) else Success(())
      ensures Contents() == if result.Success? then Put(old(Contents()), Payload(ToJson(receipt))) else old(Contents())
    {
      var existing := ParseLines(lines);
      if existing.Failure? {
        return Failure(existing.error);
      }
      var repeated := Holds(existing.value, receipt.trial);
      if repeated {
        return Failure(AlreadyExists);
      }
      WriteLine(Payload(ToJson(receipt)));
      return Success(());
    }

    // Write a line and its end at the end of the file, without looking at what is there.
    method WriteLine(line: Line)
      modifies this
      ensures Contents() == Put(old(Contents()), line)
    {
      if ended || lines == [] {
        lines := lines + [line];
      } else {
        var n := |lines| - 1;
        lines := lines[..n] + [Glued(lines[n], line)];
      }
      ended := true;
    }

    method Read() returns (result: Result<seq<Receipt>, LogError>)
      ensures result == Parse(lines)
    {
      result := ParseLines(lines);
    }
  }

  // A file that was only ever appended to can be read exactly if every receipt was well formed,
  // and then it reads as what was appended, in order.
  lemma {:induction false} ReadIsWhatWasAppended(rs: seq<Receipt>, lineno: nat)
    ensures Parse(LinesOf(rs), lineno) == Success(rs) <==> forall r <- rs :: WellFormed(r)
    ensures Parse(LinesOf(rs), lineno).Success? ==> forall r <- rs :: WellFormed(r)
    decreases |rs|
  {
    if rs != [] {
      ParseWritten(rs[0], lineno);
      ReadIsWhatWasAppended(rs[1..], lineno + 1);
      assert LinesOf(rs)[1..] == LinesOf(rs[1..]);
      assert rs == [rs[0]] + rs[1..];
    }
  }

  lemma ParseWritten(r: Receipt, lineno: nat)
    ensures ParseLine(Payload(ToJson(r)), lineno) == Success([r]) <==> WellFormed(r)
    ensures ParseLine(Payload(ToJson(r)), lineno).Success? ==> WellFormed(r)
  {
    ReceiptRoundTrip(r);
  }

  // What is on the lines of a file does not depend on what comes after them, blank lines included, and
  // a line that is no receipt hides everything after it.
  lemma {:induction false} ParseOfConcat(a: seq<Line>, b: seq<Line>, lineno: nat)
    ensures Parse(a + b, lineno) == Joined(Parse(a, lineno), Parse(b, lineno + |a|))
    decreases |a|
  {
    if a == [] {
      assert a + b == b;
      JoinedToNothing(Parse(b, lineno));
    } else {
      assert (a + b)[1..] == a[1..] + b;
      ParseOfConcat(a[1..], b, lineno + 1);
      JoinedIsAssociative(ParseLine(a[0], lineno), Parse(a[1..], lineno + 1), Parse(b, lineno + |a|));
    }
  }

  lemma ParseOfOne(line: Line, lineno: nat)
    ensures Parse([line], lineno) == ParseLine(line, lineno)
  {
    assert [line][1..] == [];
    JoinedToNothing(ParseLine(line, lineno));
  }

  predicate IsReadable(line: Line) {
    line.Blank? || (line.Payload? && FromJson(line.json).Success?)
  }

  // A file reads as the receipts on its lines that are not blank; the first line that is not one is what
  // is reported, by its number.
  lemma {:induction false} ParseStopsAtFirst(lines: seq<Line>, n: nat, lineno: nat)
    requires n <= |lines| && forall j | 0 <= j < n :: IsReadable(lines[j])
    ensures n == |lines| ==> Parse(lines, lineno).Success?
    ensures n < |lines| && lines[n].Garbage? ==> Parse(lines, lineno) == Failure(NotJson(lineno + n))
    ensures n < |lines| && lines[n].Payload? && FromJson(lines[n].json).Failure? ==>
              Parse(lines, lineno) == Failure(Malformed(lineno + n, FromJson(lines[n].json).error))
    decreases |lines|
  {
    if n > 0 {
      ParseStopsAtFirst(lines[1..], n - 1, lineno + 1);
    }
  }

  lemma OneLineReadsAs(line: Line)
    ensures line.Blank? ==> Parse([line]) == Success([])
    ensures line.Payload? && FromJson(line.json).Success? ==> Parse([line]) == Success([FromJson(line.json).value])
  {
    ParseOfOne(line, 1);
  }

  lemma ParseOfLast(lines: seq<Line>, line: Line)
    ensures Parse(lines + [line]) == Joined(Parse(lines), ParseLine(line, 1 + |lines|))
  {
    ParseOfConcat(lines, [line], 1);
    ParseOfOne(line, 1 + |lines|);
  }

  // A file to which a receipt is written can be read if and only if it could before, the receipt is well
  // formed, and the last line was ended or held nothing but white space.
  lemma ParseOfPut(f: File, r: Receipt)
    ensures var g := Put(f, Payload(ToJson(r)));
            && (Parse(g.lines).Success? <==> Parse(f.lines).Success? && WellFormed(r) && TakesEntries(f))
            && (Parse(g.lines).Success? ==> Parse(g.lines).value == Known(f.lines) + [r])
  {
    var line := Payload(ToJson(r));
    if IsEnded(f) {
      ParseOfLast(f.lines, line);
      ParseWritten(r, 1 + |f.lines|);
    } else {
      var n := |f.lines| - 1;
      assert f.lines == f.lines[..n] + [f.lines[n]];
      ParseOfLast(f.lines[..n], f.lines[n]);
      ParseOfLast(f.lines[..n], Glued(f.lines[n], line));
      ParseWritten(r, 1 + n);
      JoinedToNothing(Parse(f.lines[..n]));
    }
  }

  // What a file reads as after `rs` have been written to it.
  lemma {:induction false} ParseOfPutAll(f: File, rs: seq<Receipt>)
    ensures Parse(PutAll(f, rs).lines).Success? <==>
            Parse(f.lines).Success? && (forall r <- rs :: WellFormed(r)) && (rs == [] || TakesEntries(f))
    ensures Parse(PutAll(f, rs).lines).Success? ==> Parse(PutAll(f, rs).lines).value == Known(f.lines) + rs
    decreases |rs|
  {
    if rs == [] {
      assert Known(f.lines) + [] == Known(f.lines);
    } else {
      var g := Put(f, Payload(ToJson(rs[0])));
      ParseOfPut(f, rs[0]);
      ParseOfPutAll(g, rs[1..]);
      PutIsEnded(f, Payload(ToJson(rs[0])));
      Associate(Known(f.lines), [rs[0]], rs[1..]);
      FirstAndRest(rs);
    }
  }

  lemma PutIsEnded(f: File, line: Line)
    ensures TakesEntries(Put(f, line))
  {
  }

  lemma FirstAndRest(rs: seq<Receipt>)
    requires rs != []
    ensures [rs[0]] + rs[1..] == rs
    ensures (forall r <- rs :: WellFormed(r)) <==> WellFormed(rs[0]) && forall r <- rs[1..] :: WellFormed(r)
  {
    assert rs == [rs[0]] + rs[1..];
  }

  lemma {:induction false} PutAllAppended(f: File, rs: seq<Receipt>, r: Receipt)
    ensures PutAll(f, rs + [r]) == Put(PutAll(f, rs), Payload(ToJson(r)))
    decreases |rs|
  {
    if rs == [] {
      assert [] + [r] == [r] && [r][1..] == [];
    } else {
      assert (rs + [r])[0] == rs[0] && (rs + [r])[1..] == rs[1..] + [r];
      PutAllAppended(Put(f, Payload(ToJson(rs[0]))), rs[1..], r);
    }
  }

  // To a file with all its line ends, what is written adds its own lines and nothing else.
  lemma {:induction false} PutAllToEnded(f: File, rs: seq<Receipt>)
    requires IsEnded(f)
    ensures PutAll(f, rs).lines == f.lines + LinesOf(rs) && IsEnded(PutAll(f, rs))
    decreases |rs|
  {
    if rs == [] {
      assert f.lines + [] == f.lines;
    } else {
      PutAllToEnded(Put(f, Payload(ToJson(rs[0]))), rs[1..]);
      Associate(f.lines, [Payload(ToJson(rs[0]))], LinesOf(rs[1..]));
    }
  }

  // -- many processes ------------------------------------------------------------

  // Where a process stands in its one append.
  datatype Phase =
    | Waiting
    | Locked
    | Scanned(existing: Result<seq<Receipt>, LogError>)
    | Cleared
    | Written
    | Finished(ok: bool)
    | Dead

  datatype Process = Process(receipt: Receipt, phase: Phase)

  // The file, who holds its exclusive lock, the processes, and the receipts they have written so far.
  datatype World = World(file: File, holder: Option<nat>, processes: seq<Process>, written: seq<Receipt>)

  // A process may die at any point; the operating system then releases its lock.
  datatype Step = Acquire(p: nat) | Scan(p: nat) | Check(p: nat) | Write(p: nat) | Release(p: nat) | Die(p: nat)

  function PhaseOf(w: World, p: nat): Phase
    requires p < |w.processes|
  {
    w.processes[p].phase
  }

  predicate Enabled(w: World, s: Step) {
    s.p < |w.processes| &&
    match s
    case Acquire(p) => PhaseOf(w, p) == Waiting && w.holder == None
    case Scan(p) => PhaseOf(w, p) == Locked
    case Check(p) => PhaseOf(w, p).Scanned?
    case Write(p) => PhaseOf(w, p) == Cleared
    case Release(p) => PhaseOf(w, p) == Written
    case Die(p) => !PhaseOf(w, p).Finished?
  }

  function Set(w: World, p: nat, phase: Phase): World
    requires p < |w.processes|
  {
    w.(processes := w.processes[p := w.processes[p].(phase := phase)])
  }

  function Unlocked(w: World, p: nat): World {
    if w.holder == Some(p) then w.(holder := None) else w
  }

  function Next(w: World, s: Step): World
    requires Enabled(w, s)
  {
    match s
    case Acquire(p) => Set(w, p, Locked).(holder := Some(p))
    case Scan(p) => Set(w, p, Scanned(Parse(w.file.lines)))
    case Check(p) =>
      var existing := PhaseOf(w, p).existing;
      if existing.Failure? || HasTrial(existing.value, w.processes[p].receipt.trial)
      then Unlocked(Set(w, p, Finished(false)), p)
      else Set(w, p, Cleared)
    case Write(p) =>
      var r := w.processes[p].receipt;
      Set(w, p, Written).(file := Put(w.file, Payload(ToJson(r))), written := w.written + [r])
    case Release(p) => Unlocked(Set(w, p, Finished(true)), p)
    case Die(p) => Unlocked(Set(w, p, Dead), p)
  }

  // The file may hold anything: blank lines, receipts from before, lines that are none, and a last line
  // without its end.
  predicate Initial(w: World) {
    w.written == [] && w.holder == None && forall p <- w.processes :: p.phase == Waiting
  }

  // `w'` is reached from `w` by the steps of the run, taken in any interleaving.
  predicate Runs(w: World, run: seq<Step>, w': World)
    decreases |run|
  {
    if run == [] then w == w' else Enabled(w, run[0]) && Runs(Next(w, run[0]), run[1..], w')
  }

  predicate InCriticalSection(phase: Phase) {
    phase.Locked? || phase.Scanned? || phase.Cleared? || phase.Written?
  }

  // What each process knows about the file.
  predicate ProcessInv(w: World, p: nat)
    requires p < |w.processes|
  {
    var r := w.processes[p].receipt;
    match PhaseOf(w, p)
    case Scanned(existing) => existing == Parse(w.file.lines)
    case Cleared => Parse(w.file.lines).Success? && !HasTrial(Parse(w.file.lines).value, r.trial)
    case Written => r in w.written
    case Finished(ok) => ok ==> r in w.written
    case _ => true
  }

  // The receipts of a file that held `base` before the run, none if it cannot be read.
  function Known(base: seq<Line>): seq<Receipt> {
    if Parse(base).Success? then Parse(base).value else []
  }

  predicate AreNew(base: seq<Line>, written: seq<Receipt>) {
    && (written != [] ==> Parse(base).Success?)
    && (forall r <- written :: !HasTrial(Known(base), r.trial))
    && DistinctTrials(written)
  }

  // The file is `base` and what the processes wrote to it, which repeats no trial.
  predicate Inv(base: File, w: World) {
    && w.file == PutAll(base, w.written)
    && AreNew(base.lines, w.written)
    && (forall p | 0 <= p < |w.processes| :: InCriticalSection(PhaseOf(w, p)) ==> w.holder == Some(p))
    && (forall p | 0 <= p < |w.processes| :: ProcessInv(w, p))
  }

  lemma OnlyOneInside(base: File, w: World, p: nat, q: nat)
    requires Inv(base, w) && p < |w.processes| && q < |w.processes|
    requires InCriticalSection(PhaseOf(w, p)) && InCriticalSection(PhaseOf(w, q))
    ensures p == q
  {
  }

  // Whoever holds the lock is between acquiring and releasing it.
  predicate HolderIsInside(w: World) {
    w.holder.Some? ==> w.holder.value < |w.processes| && InCriticalSection(PhaseOf(w, w.holder.value))
  }

  lemma HolderStaysInside(base: File, w: World, s: Step)
    requires Inv(base, w) && HolderIsInside(w) && Enabled(w, s)
    ensures HolderIsInside(Next(w, s))
  {
  }

  lemma {:induction false} HolderIsAlwaysInside(base: File, w: World, run: seq<Step>, w': World)
    requires Inv(base, w) && HolderIsInside(w) && Runs(w, run, w')
    ensures HolderIsInside(w')
    decreases |run|
  {
    if run != [] {
      HolderStaysInside(base, w, run[0]);
      StepKeepsInv(base, w, run[0]);
      HolderIsAlwaysInside(base, Next(w, run[0]), run[1..], w');
    }
  }

  // The step that a process inside takes next.
  function GoOn(w: World, p: nat): Step
    requires p < |w.processes|
  {
    match PhaseOf(w, p)
    case Scanned(_) => Check(p)
    case Cleared => Write(p)
    case Written => Release(p)
    case _ => Scan(p)
  }

  // The log is never stuck: whoever holds the lock can go on, or die, and a death frees the lock and changes
  // nothing in the file; a free lock can be taken by anyone who waits.
  lemma LockIsNeverStuck(w: World, run: seq<Step>, w': World, p: nat)
    requires Initial(w) && Runs(w, run, w') && p < |w'.processes|
    ensures w'.holder.Some? ==> w'.holder.value < |w'.processes| && Enabled(w', GoOn(w', w'.holder.value))
    ensures w'.holder == Some(p) ==>
              && Enabled(w', Die(p))
              && var dead := Next(w', Die(p));
                 dead.holder == None && dead.file == w'.file && dead.written == w'.written
    ensures w'.holder == None && PhaseOf(w', p) == Waiting ==> Enabled(w', Acquire(p))
  {
    InitialInv(w);
    HolderIsAlwaysInside(w.file, w, run, w');
  }

  lemma ClearedTrialIsNew(base: File, w: World, p: nat)
    requires Inv(base, w) && p < |w.processes| && PhaseOf(w, p) == Cleared
    ensures Parse(base.lines).Success? && Parse(w.file.lines) == Success(Known(base.lines) + w.written)
    ensures !HasTrial(Known(base.lines) + w.written, w.processes[p].receipt.trial)
  {
    assert ProcessInv(w, p);
    ParseOfPutAll(base, w.written);
  }

  // A process that does not write leaves what the others know about the file true.
  lemma QuietStepKeepsInv(base: File, w: World, s: Step)
    requires Inv(base, w) && Enabled(w, s) && !s.Write?
    ensures Inv(base, Next(w, s))
  {
    var w' := Next(w, s);
    forall p | 0 <= p < |w'.processes|
      ensures ProcessInv(w', p)
      ensures InCriticalSection(PhaseOf(w', p)) ==> w'.holder == Some(p)
    {
      if p == s.p {
        QuietStepKeepsOwn(base, w, s);
      } else {
        QuietStepKeepsOther(base, w, s, p);
      }
    }
  }

  lemma QuietStepKeepsOwn(base: File, w: World, s: Step)
    requires Inv(base, w) && Enabled(w, s) && !s.Write?
    ensures ProcessInv(Next(w, s), s.p)
    ensures InCriticalSection(PhaseOf(Next(w, s), s.p)) ==> Next(w, s).holder == Some(s.p)
  {
    assert ProcessInv(w, s.p) && (InCriticalSection(PhaseOf(w, s.p)) ==> w.holder == Some(s.p));
  }

  lemma QuietStepKeepsOther(base: File, w: World, s: Step, p: nat)
    requires Inv(base, w) && Enabled(w, s) && !s.Write? && p < |w.processes| && p != s.p
    ensures ProcessInv(Next(w, s), p)
    ensures InCriticalSection(PhaseOf(Next(w, s), p)) ==> Next(w, s).holder == Some(p)
  {
    var w' := Next(w, s);
    assert ProcessInv(w, p) && (InCriticalSection(PhaseOf(w, p)) ==> w.holder == Some(p));
    assert w'.processes[p] == w.processes[p] && w'.file == w.file && w'.written == w.written;
  }

  lemma WrittenStayNew(base: seq<Line>, written: seq<Receipt>, r: Receipt)
    requires AreNew(base, written) && Parse(base).Success? && !HasTrial(Known(base) + written, r.trial)
    ensures AreNew(base, written + [r])
  {
    assert forall k <- Known(base) :: k in Known(base) + written;
    assert forall k | 0 <= k < |written| :: written[k] in Known(base) + written;
  }

  lemma WriteKeepsProcesses(base: File, w: World, p: nat, q: nat)
    requires Inv(base, w) && Enabled(w, Write(p)) && q < |w.processes|
    ensures ProcessInv(Next(w, Write(p)), q)
    ensures InCriticalSection(PhaseOf(Next(w, Write(p)), q)) ==> w.holder == Some(q)
  {
    var w' := Next(w, Write(p));
    assert ProcessInv(w, q) && (InCriticalSection(PhaseOf(w, q)) ==> w.holder == Some(q));
    assert InCriticalSection(PhaseOf(w, p)) && w.holder == Some(p);
    assert forall k <- w.written :: k in w'.written;
    assert q != p ==> w'.processes[q] == w.processes[q];
  }

  lemma WriteKeepsInv(base: File, w: World, p: nat)
    requires Inv(base, w) && Enabled(w, Write(p))
    ensures Inv(base, Next(w, Write(p)))
  {
    PutAllAppended(base, w.written, w.processes[p].receipt);
    ClearedTrialIsNew(base, w, p);
    WrittenStayNew(base.lines, w.written, w.processes[p].receipt);
    forall q | 0 <= q < |w.processes|
      ensures ProcessInv(Next(w, Write(p)), q)
      ensures InCriticalSection(PhaseOf(Next(w, Write(p)), q)) ==> w.holder == Some(q)
    {
      WriteKeepsProcesses(base, w, p, q);
    }
  }

  lemma StepKeepsInv(base: File, w: World, s: Step)
    requires Inv(base, w) && Enabled(w, s)
    ensures Inv(base, Next(w, s))
  {
    if s.Write? {
      WriteKeepsInv(base, w, s.p);
    } else {
      QuietStepKeepsInv(base, w, s);
    }
  }

  lemma {:induction false} RunKeepsInv(base: File, w: World, run: seq<Step>, w': World)
    requires Inv(base, w) && Runs(w, run, w')
    ensures Inv(base, w')
    decreases |run|
  {
    if run != [] {
      StepKeepsInv(base, w, run[0]);
      RunKeepsInv(base, Next(w, run[0]), run[1..], w');
    }
  }

  lemma InitialInv(w: World)
    requires Initial(w)
    ensures Inv(w.file, w)
  {
    forall p | 0 <= p < |w.processes|
      ensures PhaseOf(w, p) == Waiting
    {
      assert w.processes[p] in w.processes;
    }
  }

  // In every interleaving, whatever the file held before: what the processes write repeats no trial,
  // neither of theirs nor one that was there, and the file can be read if and only if it could before,
  // everything written was well formed, and the first of it did not meet a line without an end; then it
  // reads as what was there followed by what was written, in order. Nothing at all is written to a file
  // that cannot be read.
  lemma EveryInterleavingIsSafe(w: World, run: seq<Step>, w': World)
    requires Initial(w) && Runs(w, run, w')
    ensures w'.file == PutAll(w.file, w'.written) && AreNew(w.file.lines, w'.written)
    ensures Parse(w'.file.lines).Success? <==>
            && Parse(w.file.lines).Success? && (forall r <- w'.written :: WellFormed(r))
            && (w'.written == [] || TakesEntries(w.file))
    ensures Parse(w'.file.lines).Success? ==> Parse(w'.file.lines).value == Known(w.file.lines) + w'.written
  {
    InitialInv(w);
    RunKeepsInv(w.file, w, run, w');
    ParseOfPutAll(w.file, w'.written);
  }

  // Where every line has its end, the processes only add lines to the file.
  lemma EndedFilesOnlyGrow(w: World, run: seq<Step>, w': World)
    requires Initial(w) && Runs(w, run, w') && IsEnded(w.file)
    ensures w'.file.lines == w.file.lines + LinesOf(w'.written) && IsEnded(w'.file)
    ensures Parse(w'.file.lines).Success? <==> Parse(w.file.lines).Success? && forall r <- w'.written :: WellFormed(r)
  {
    EveryInterleavingIsSafe(w, run, w');
    PutAllToEnded(w.file, w'.written);
  }

  // The lines of a file that have their ends.
  function EndedLines(f: File): seq<Line> {
    if IsEnded(f) then f.lines else f.lines[..|f.lines| - 1]
  }

  lemma StepKeepsEndedLines(w: World, s: Step)
    requires Enabled(w, s)
    ensures EndedLines(w.file) <= EndedLines(Next(w, s).file)
    ensures IsEnded(w.file) ==> IsEnded(Next(w, s).file)
  {
  }

  lemma {:induction false} RunKeepsEndedLines(w: World, run: seq<Step>, w': World)
    requires Runs(w, run, w')
    ensures EndedLines(w.file) <= EndedLines(w'.file) && (IsEnded(w.file) ==> IsEnded(w'.file))
    decreases |run|
  {
    if run != [] {
      StepKeepsEndedLines(w, run[0]);
      RunKeepsEndedLines(Next(w, run[0]), run[1..], w');
    }
  }

  // No line that has its end is ever changed or removed: at any later moment the file starts with those it
  // had. A file made by appends alone has all its line ends.
  lemma EntriesAreNeverChanged(w: World, before: seq<Step>, w1: World, after: seq<Step>, w2: World)
    requires Runs(w, before, w1) && Runs(w1, after, w2)
    ensures EndedLines(w1.file) <= w2.file.lines
    ensures w.file == File([], true) ==> IsEnded(w1.file) && w1.file.lines <= w2.file.lines
  {
    RunKeepsEndedLines(w, before, w1);
    RunKeepsEndedLines(w1, after, w2);
  }

  // -- what a finished process may conclude ----------------------------------------

  predicate AllWellFormed(w: World) {
    forall p <- w.processes :: WellFormed(p.receipt)
  }

  // A file that can be read, and will be after a receipt is written to it.
  predicate IsGood(f: File) {
    Parse(f.lines).Success? && TakesEntries(f)
  }

  // With well-formed receipts only, a refusal means that the trial is there already.
  predicate RefusalsAreRepeats(base: File, w: World) {
    forall p | 0 <= p < |w.processes| ::
      PhaseOf(w, p) == Finished(false) ==> HasTrial(Known(base.lines) + w.written, w.processes[p].receipt.trial)
  }

  predicate WrittenAreWellFormed(w: World) {
    forall r <- w.written :: WellFormed(r)
  }

  lemma StepKeepsReceipts(w: World, s: Step)
    requires Enabled(w, s) && AllWellFormed(w) && WrittenAreWellFormed(w)
    ensures AllWellFormed(Next(w, s)) && WrittenAreWellFormed(Next(w, s))
  {
    var w' := Next(w, s);
    assert w.processes[s.p] in w.processes;
    forall p | 0 <= p < |w'.processes|
      ensures WellFormed(w'.processes[p].receipt)
    {
      assert w.processes[p] in w.processes && w'.processes[p].receipt == w.processes[p].receipt;
    }
  }

  lemma RefusalMeansPresent(base: File, w: World, p: nat)
    requires Inv(base, w) && IsGood(base) && WrittenAreWellFormed(w)
    requires Enabled(w, Check(p)) && PhaseOf(Next(w, Check(p)), p) == Finished(false)
    ensures HasTrial(Known(base.lines) + w.written, w.processes[p].receipt.trial)
  {
    assert ProcessInv(w, p);
    ParseOfPutAll(base, w.written);
  }

  lemma RefusalStays(base: File, w: World, s: Step, p: nat)
    requires Inv(base, w) && IsGood(base) && Enabled(w, s) && WrittenAreWellFormed(w)
             && RefusalsAreRepeats(base, w)
    requires p < |w.processes| && PhaseOf(Next(w, s), p) == Finished(false)
    ensures HasTrial(Known(base.lines) + Next(w, s).written, w.processes[p].receipt.trial)
  {
    if p == s.p {
      assert s == Check(p);
      RefusalMeansPresent(base, w, p);
    } else {
      assert Next(w, s).processes[p] == w.processes[p];
      assert w.written <= Next(w, s).written;
      assert forall r <- Known(base.lines) + w.written :: r in Known(base.lines) + Next(w, s).written;
    }
  }

  lemma StepSettles(base: File, w: World, s: Step, w': World)
    requires Inv(base, w) && IsGood(base) && Enabled(w, s) && WrittenAreWellFormed(w)
             && RefusalsAreRepeats(base, w)
    requires w' == Next(w, s)
    ensures RefusalsAreRepeats(base, w')
  {
    StepKeepsOwners(w, s);
    forall p | 0 <= p < |w'.processes| && PhaseOf(w', p) == Finished(false)
      ensures HasTrial(Known(base.lines) + w'.written, w'.processes[p].receipt.trial)
    {
      RefusalStays(base, w, s, p);
    }
  }

  lemma StepKeepsOwners(w: World, s: Step)
    requires Enabled(w, s)
    ensures |Next(w, s).processes| == |w.processes|
    ensures forall p | 0 <= p < |w.processes| :: Next(w, s).processes[p].receipt == w.processes[p].receipt
  {
  }

  lemma {:induction false} RunSettles(base: File, w: World, run: seq<Step>, w': World)
    requires Inv(base, w) && IsGood(base) && AllWellFormed(w) && WrittenAreWellFormed(w)
             && RefusalsAreRepeats(base, w)
    requires Runs(w, run, w')
    ensures Inv(base, w') && RefusalsAreRepeats(base, w') && WrittenAreWellFormed(w')
    decreases |run|
  {
    if run != [] {
      StepKeepsInv(base, w, run[0]);
      StepKeepsReceipts(w, run[0]);
      StepSettles(base, w, run[0], Next(w, run[0]));
      RunSettles(base, Next(w, run[0]), run[1..], w');
    }
  }

  lemma NewTrialsStayDistinct(base: seq<Line>, written: seq<Receipt>)
    requires AreNew(base, written) && DistinctTrials(Known(base))
    ensures DistinctTrials(Known(base) + written)
  {
    var all, n := Known(base) + written, |Known(base)|;
    forall i, j | 0 <= i < j < |all|
      ensures all[i].trial != all[j].trial
    {
      if i < n <= j {
        assert written[j - n] in written && all[i] in Known(base);
      }
    }
  }

  // Whatever the interleaving, a process that ran to its end on a good file leaves exactly one entry for
  // its trial: its own if it succeeded, another one's if it was refused.
  lemma ExactlyOneEntryPerFinishedProcess(w: World, run: seq<Step>, w': World, p: nat)
    requires Initial(w) && AllWellFormed(w) && Runs(w, run, w')
    requires IsGood(w.file) && DistinctTrials(Known(w.file.lines))
    requires p < |w'.processes| && PhaseOf(w', p).Finished?
    ensures Parse(w'.file.lines) == Success(Known(w.file.lines) + w'.written)
    ensures HasTrial(Known(w.file.lines) + w'.written, w'.processes[p].receipt.trial)
    ensures DistinctTrials(Known(w.file.lines) + w'.written)
    ensures PhaseOf(w', p).ok ==> w'.processes[p].receipt in w'.written
  {
    FinishedIsSettled(w, run, w');
    ParseOfPutAll(w.file, w'.written);
    NewTrialsStayDistinct(w.file.lines, w'.written);
    FinishedIsPresent(w.file, w', p);
  }

  lemma FinishedIsSettled(w: World, run: seq<Step>, w': World)
    requires Initial(w) && AllWellFormed(w) && Runs(w, run, w') && IsGood(w.file)
    ensures Inv(w.file, w') && RefusalsAreRepeats(w.file, w') && WrittenAreWellFormed(w')
  {
    InitialInv(w);
    forall q | 0 <= q < |w.processes|
      ensures PhaseOf(w, q) == Waiting
    {
      assert w.processes[q] in w.processes;
    }
    RunSettles(w.file, w, run, w');
  }

  lemma FinishedIsPresent(base: File, w: World, p: nat)
    requires Inv(base, w) && RefusalsAreRepeats(base, w) && p < |w.processes| && PhaseOf(w, p).Finished?
    ensures HasTrial(Known(base.lines) + w.written, w.processes[p].receipt.trial)
    ensures PhaseOf(w, p).ok ==> w.processes[p].receipt in w.written
  {
    assert ProcessInv(w, p);
    assert forall r <- w.written :: r in Known(base.lines) + w.written;
  }

  // -- one append, exactly ---------------------------------------------------------------

  // The one process of this world is about to append `r` to a file that holds `base`.
  function AboutToAppend(base: File, r: Receipt): World {
    World(base, None, [Process(r, Waiting)], [])
  }

  // It has done so.
  function HasAppended(base: File, r: Receipt): World {
    World(Put(base, Payload(ToJson(r))), None, [Process(r, Finished(true))], [r])
  }

  const ONE_APPEND: seq<Step> := [Acquire(0), Scan(0), Check(0), Write(0), Release(0)]

  // `append_receipt` looks neither at the receipt it appends nor at the end of the file: to a file that can
  // be read it appends any receipt whose trial is new, and the file can be read afterwards exactly if the
  // receipt was well formed and did not meet a line without an end.
  lemma AnyNewReceiptIsAppended(base: File, r: Receipt)
    requires Parse(base.lines).Success? && !HasTrial(Parse(base.lines).value, r.trial)
    ensures Initial(AboutToAppend(base, r)) && Runs(AboutToAppend(base, r), ONE_APPEND, HasAppended(base, r))
    ensures Parse(HasAppended(base, r).file.lines).Success? <==> WellFormed(r) && TakesEntries(base)
  {
    AppendSteps(base, r, Payload(ToJson(r)));
    ParseOfPut(base, r);
  }

  lemma AppendSteps(base: File, r: Receipt, line: Line)
    requires Parse(base.lines).Success? && !HasTrial(Parse(base.lines).value, r.trial) && line == Payload(ToJson(r))
    ensures Runs(AboutToAppend(base, r), ONE_APPEND, World(Put(base, line), None, [Process(r, Finished(true))], [r]))
  {
    var w1 := World(base, Some(0), [Process(r, Locked)], []);
    var w2 := World(base, Some(0), [Process(r, Scanned(Parse(base.lines)))], []);
    var w3 := World(base, Some(0), [Process(r, Cleared)], []);
    var w4 := World(Put(base, line), Some(0), [Process(r, Written)], [r]);
    var w5 := World(Put(base, line), None, [Process(r, Finished(true))], [r]);
    NewTrialIsCleared(base, r, Parse(base.lines));
    assert Next(w3, Write(0)) == w4;
    FiveSteps(AboutToAppend(base, r), w1, w2, w3, w4, w5);
  }

  lemma NewTrialIsCleared(base: File, r: Receipt, existing: Reading)
    requires existing.Success? && !HasTrial(existing.value, r.trial)
    ensures var w := World(base, Some(0), [Process(r, Scanned(existing))], []);
            Enabled(w, Check(0)) && Next(w, Check(0)) == World(base, Some(0), [Process(r, Cleared)], [])
  {
  }

  lemma FiveSteps(w0: World, w1: World, w2: World, w3: World, w4: World, w5: World)
    requires Enabled(w0, Acquire(0)) && Next(w0, Acquire(0)) == w1
    requires Enabled(w1, Scan(0)) && Next(w1, Scan(0)) == w2
    requires Enabled(w2, Check(0)) && Next(w2, Check(0)) == w3
    requires Enabled(w3, Write(0)) && Next(w3, Write(0)) == w4
    requires Enabled(w4, Release(0)) && Next(w4, Release(0)) == w5
    ensures Runs(w0, ONE_APPEND, w5)
  {
    assert Runs(w5, [], w5);
    assert [Release(0)][1..] == [];
    assert Runs(w4, [Release(0)], w5);
    assert Runs(w3, [Write(0), Release(0)], w5);
    assert Runs(w2, [Check(0), Write(0), Release(0)], w5);
    assert Runs(w1, [Scan(0), Check(0), Write(0), Release(0)], w5);
  }

  // -- a receipt that is not well formed, and a line without an end ------------------------

  const MISVERSIONED := SMALLEST.(schemaVersion := 2)

  // The first append to an empty file can be the last one for good.
  lemma MisversionedReceiptIsAppended()
    ensures !WellFormed(MISVERSIONED)
    ensures Runs(AboutToAppend(File([], true), MISVERSIONED), ONE_APPEND, HasAppended(File([], true), MISVERSIONED))
    ensures Parse(HasAppended(File([], true), MISVERSIONED).file.lines).Failure?
  {
    AnyNewReceiptIsAppended(File([], true), MISVERSIONED);
  }

  // One receipt, written by a tool that does not end its lines.
  const UNENDED := File([Payload(ToJson(SMALLEST))], false)

  const SECOND := SMALLEST.(trial := SMALLEST.trial.(attempt := 2))

  // The file reads as its receipt. A well-formed receipt for another trial is appended to it: the line of the
  // first one is lost, and the file cannot be read any more.
  lemma UnendedLineIsLost()
    ensures Parse(UNENDED.lines) == Success([SMALLEST]) && WellFormed(SECOND)
    ensures Runs(AboutToAppend(UNENDED, SECOND), ONE_APPEND, HasAppended(UNENDED, SECOND))
    ensures HasAppended(UNENDED, SECOND).file.lines == [Garbage]
    ensures Parse(HasAppended(UNENDED, SECOND).file.lines).Failure?
  {
    assert WellFormed(SMALLEST) && WellFormed(SECOND);
    ParseWritten(SMALLEST, 1);
    ParseOfOne(Payload(ToJson(SMALLEST)), 1);
    SecondIsNew();
    AnyNewReceiptIsAppended(UNENDED, SECOND);
    GluedToTheOnlyLine(Payload(ToJson(SMALLEST)), Payload(ToJson(SECOND)));
  }

  lemma GluedToTheOnlyLine(first: Line, line: Line)
    requires first.Payload?
    ensures Put(File([first], false), line).lines == [Garbage] && !TakesEntries(File([first], false))
  {
    assert [first][..0] == [];
  }

  lemma SecondIsNew()
    ensures !HasTrial([SMALLEST], SECOND.trial)
  {
  }

  // Nothing is appended by anyone to a file that cannot be read.
  lemma {:induction false} UnreadableFileNeverGrows(base: File, w: World, run: seq<Step>, w': World)
    requires Inv(base, w) && Runs(w, run, w') && Parse(w.file.lines).Failure?
    ensures w'.file == w.file
    decreases |run|
  {
    if run != [] {
      StepKeepsInv(base, w, run[0]);
      if run[0].Write? {
        ClearedTrialIsNew(base, w, run[0].p);
        assert false;
      }
      UnreadableFileNeverGrows(base, Next(w, run[0]), run[1..], w');
    }
  }

  // One receipt that is not well formed has that effect, and so has any receipt that met a line without an
  // end.
  lemma MalformedEntryBlocksTheLog(base: File, w: World, run: seq<Step>, w': World, r: Receipt)
    requires Inv(base, w) && Runs(w, run, w') && r in w.written && (!WellFormed(r) || !TakesEntries(base))
    ensures Parse(w.file.lines).Failure? && w'.file == w.file
  {
    ParseOfPutAll(base, w.written);
    UnreadableFileNeverGrows(base, w, run, w');
  }
}
