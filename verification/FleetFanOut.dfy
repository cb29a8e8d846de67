/** internal/modules/fleet: one command sent to many nodes by concurrent workers, with one result row for
    each node, at most 64 dispatches at a time, and a final sweep of the rows nobody answered. */
module FleetFanOut {
  import opened Text

  type NodeId = string

  datatype Status = Pending | Running | Success | Failed | Timeout

  datatype Reply = Reply(failed: bool, exitCode: int, output: string)

  datatype Row = Row(status: Status, exitCode: int, output: string)

  /** The fleet_job_results table; job and node are its primary key. */
  type Table = map<(int, NodeId), Row>

  const FAN_OUT_CONCURRENCY: nat := 64

  // ---------- The statements ----------

  /** An INSERT; a second row for one key is refused. */
  function Init(t: Table, job: int, node: NodeId): Table {
    if (job, node) in t then t else t[(job, node) := Row(Pending, 0, "")]
  }

  function ResultOf(r: Reply): Row {
    Row(if r.failed || r.exitCode != 0 then Failed else Success, r.exitCode, r.output)
  }

  /** An UPDATE: nothing happens where there is no row. */
  function SetResult(t: Table, job: int, node: NodeId, row: Row): Table {
    if (job, node) in t then t[(job, node) := row] else t
  }

  function MarkPendingAsTimeout(t: Table, job: int): Table {
    map k | k in t :: if k.0 == job && (t[k].status == Pending || t[k].status == Running)
                      then t[k].(status := Timeout) else t[k]
  }

  function InitAll(t: Table, job: int, targets: seq<NodeId>): Table {
    if targets == [] then t
    else Init(InitAll(t, job, targets[..|targets| - 1]), job, targets[|targets| - 1])
  }

  // ---------- The workers ----------

  /** Where the goroutine of one target stands. */
  datatype Worker =
    | Queued                    // waiting for a semaphore slot
    | Dispatching
    | Replied(reply: Reply)     // about to store the reply
    | Releasing                 // about to free its slot
    | Signalling                // about to send on the done channel
    | Finished

  /** `held` is the fill of the semaphore channel, `sent` and `collected` count done signals;
      `recorded` is the history of the replies stored, by node. */
  datatype FanOut = FanOut(job: int, targets: seq<NodeId>, workers: seq<Worker>, table: Table,
                           held: nat, sent: nat, collected: nat, swept: bool, recorded: map<NodeId, Reply>)

  datatype Step =
    | Start(i: nat)
    | Answer(i: nat, reply: Reply)
    | NoAnswer(i: nat)
    | Store(i: nat)
    | StoreFails(i: nat)
    | FreeSlot(i: nat)
    | Signal(i: nat)
    | Collect
    | Sweep

  predicate At(f: FanOut, i: nat, w: Worker) {
    i < |f.workers| && f.workers[i] == w
  }

  predicate Enabled(f: FanOut, s: Step) {
    match s
    case Start(i) => At(f, i, Queued) && f.held < FAN_OUT_CONCURRENCY
    case Answer(i, _) => At(f, i, Dispatching)
    case NoAnswer(i) => At(f, i, Dispatching)
    case Store(i) => i < |f.workers| && f.workers[i].Replied?
    case StoreFails(i) => i < |f.workers| && f.workers[i].Replied?
    case FreeSlot(i) => At(f, i, Releasing) && f.held > 0
    case Signal(i) => At(f, i, Signalling)
    case Collect => f.collected < f.sent
    case Sweep => f.collected == |f.targets| && !f.swept
  }

  function Move(f: FanOut, i: nat, w: Worker): FanOut
    requires i < |f.workers|
  {
    f.(workers := f.workers[i := w])
  }

  function Apply(f: FanOut, s: Step): FanOut
    requires |f.workers| == |f.targets| && Enabled(f, s)
  {
    match s
    case Start(i) => Move(f, i, Dispatching).(held := f.held + 1)
    case Answer(i, reply) => Move(f, i, Replied(reply))
    case NoAnswer(i) => Move(f, i, Releasing)
    case Store(i) =>
      var reply, node := f.workers[i].reply, f.targets[i];
      Move(f, i, Releasing).(table := SetResult(f.table, f.job, node, ResultOf(reply)),
                             recorded := f.recorded[node := reply])
    case StoreFails(i) => Move(f, i, Releasing)
    case FreeSlot(i) => Move(f, i, Signalling).(held := f.held - 1)
    case Signal(i) => Move(f, i, Finished).(sent := f.sent + 1)
    case Collect => f.(collected := f.collected + 1)
    case Sweep => f.(table := MarkPendingAsTimeout(f.table, f.job), swept := true)
  }

  /** fanOut as it begins, right after the rows of the job were inserted. */
  function Begin(t: Table, job: int, targets: seq<NodeId>): FanOut {
    FanOut(job, targets, seq(|targets|, i => Queued), InitAll(t, job, targets), 0, 0, 0, false, map[])
  }

  ghost predicate Run(f: FanOut, steps: seq<Step>, end: FanOut)
    decreases |steps|
  {
    if steps == [] then end == f
    else |f.workers| == |f.targets| && Enabled(f, steps[0]) && Run(Apply(f, steps[0]), steps[1..], end)
  }

  // ---------- Counting workers ----------

  predicate HoldsSlot(w: Worker) { w.Dispatching? || w.Replied? || w.Releasing? }
  predicate IsDispatching(w: Worker) { w.Dispatching? }
  predicate IsFinished(w: Worker) { w.Finished? }

  function Count(ws: seq<Worker>, p: Worker -> bool): (n: nat)
    ensures n <= |ws|
  {
    if ws == [] then 0 else Count(ws[..|ws| - 1], p) + if p(ws[|ws| - 1]) then 1 else 0
  }

  lemma {:induction false} CountUpdate(ws: seq<Worker>, i: nat, w: Worker, p: Worker -> bool)
    requires i < |ws|
    ensures Count(ws[i := w], p) == Count(ws, p) - (if p(ws[i]) then 1 else 0) + (if p(w) then 1 else 0)
  {
    var n := |ws| - 1;
    if i == n {
      assert ws[i := w][..n] == ws[..n];
    } else {
      assert ws[i := w][..n] == ws[..n][i := w];
      CountUpdate(ws[..n], i, w, p);
    }
  }

  lemma {:induction false} CountAll(ws: seq<Worker>, p: Worker -> bool)
    requires Count(ws, p) == |ws|
    ensures forall i :: 0 <= i < |ws| ==> p(ws[i])
  {
    if ws != [] {
      CountAll(ws[..|ws| - 1], p);
    }
  }

  lemma {:induction false} CountNone(ws: seq<Worker>, p: Worker -> bool)
    requires forall i :: 0 <= i < |ws| ==> !p(ws[i])
    ensures Count(ws, p) == 0
  {
    if ws != [] {
      CountNone(ws[..|ws| - 1], p);
    }
  }

  // ---------- The invariant ----------

  predicate Counted(f: FanOut) {
    |f.workers| == |f.targets| &&
    f.held == Count(f.workers, HoldsSlot) && f.held <= FAN_OUT_CONCURRENCY &&
    f.sent == Count(f.workers, IsFinished) && f.collected <= f.sent &&
    (f.swept ==> f.collected == |f.targets|)
  }

  /** What the row of one target must be. */
  function ExpectedRow(f: FanOut, node: NodeId): Row {
    if node in f.recorded then ResultOf(f.recorded[node])
    else Row(if f.swept then Timeout else Pending, 0, "")
  }

  ghost predicate Tabled(start: Table, f: FanOut) {
    (forall node :: (f.job, node) in f.table <==> node in f.targets) &&
    (forall node :: node in f.targets ==> f.table[(f.job, node)] == ExpectedRow(f, node)) &&
    (forall node :: node in f.recorded ==> node in f.targets) &&
    forall k: (int, NodeId) :: k.0 != f.job ==> (k in f.table <==> k in start) && (k in start ==> f.table[k] == start[k])
  }

  lemma StepKeepsCounts(f: FanOut, s: Step)
    requires Counted(f) && Enabled(f, s)
    ensures Counted(Apply(f, s))
  {
    if !s.Collect? && !s.Sweep? {
      var w := Apply(f, s).workers[s.i];
      CountUpdate(f.workers, s.i, w, HoldsSlot);
      CountUpdate(f.workers, s.i, w, IsFinished);
    }
  }

  /** Once every signal was collected every worker has finished, so nothing is stored after the sweep. */
  lemma CollectedMeansFinished(f: FanOut)
    requires Counted(f) && f.collected == |f.targets|
    ensures forall i :: 0 <= i < |f.workers| ==> f.workers[i].Finished?
  {
    CountAll(f.workers, IsFinished);
  }

  lemma StoreKeepsTable(start: Table, f: FanOut, i: nat)
    requires Counted(f) && Tabled(start, f) && Enabled(f, Store(i)) && !f.swept
    ensures Tabled(start, Apply(f, Store(i)))
  {
    var next := Apply(f, Store(i));
    var node := f.targets[i];
    assert node in f.targets;
    forall other | other in f.targets
      ensures next.table[(f.job, other)] == ExpectedRow(next, other)
    {
    }
  }

  lemma SweepKeepsTable(start: Table, f: FanOut)
    requires Tabled(start, f) && Enabled(f, Sweep) && |f.workers| == |f.targets|
    ensures Tabled(start, Apply(f, Sweep))
  {
  }

  lemma StepKeepsTable(start: Table, f: FanOut, s: Step)
    requires Counted(f) && Tabled(start, f) && Enabled(f, s)
    ensures Tabled(start, Apply(f, s))
  {
    if s.Store? {
      if f.swept {
        CollectedMeansFinished(f);
      } else {
        StoreKeepsTable(start, f, s.i);
      }
    } else if s.Sweep? {
      SweepKeepsTable(start, f);
    } else {
      var next := Apply(f, s);
      assert next.table == f.table && next.recorded == f.recorded && next.swept == f.swept && next.targets == f.targets;
    }
  }

  lemma {:induction false} InitAllRows(t: Table, job: int, targets: seq<NodeId>)
    requires forall node :: (job, node) !in t
    ensures forall node :: (job, node) in InitAll(t, job, targets) <==> node in targets
    ensures forall node :: node in targets ==> InitAll(t, job, targets)[(job, node)] == Row(Pending, 0, "")
    ensures forall k: (int, NodeId) :: k.0 != job ==> (k in InitAll(t, job, targets) <==> k in t) &&
                                                      (k in t ==> InitAll(t, job, targets)[k] == t[k])
  {
    if targets != [] {
      InitAllRows(t, job, targets[..|targets| - 1]);
      FrontAndLast(targets);
    }
  }

  lemma BeginHolds(t: Table, job: int, targets: seq<NodeId>)
    requires forall node :: (job, node) !in t
    ensures Counted(Begin(t, job, targets)) && Tabled(t, Begin(t, job, targets))
  {
    InitAllRows(t, job, targets);
    CountNone(Begin(t, job, targets).workers, HoldsSlot);
    CountNone(Begin(t, job, targets).workers, IsFinished);
  }

  lemma {:induction false} RunHolds(start: Table, f: FanOut, steps: seq<Step>, end: FanOut)
    requires Counted(f) && Tabled(start, f) && Run(f, steps, end)
    ensures Counted(end) && Tabled(start, end) && end.job == f.job && end.targets == f.targets
    decreases |steps|
  {
    if steps != [] {
      StepKeepsCounts(f, steps[0]);
      StepKeepsTable(start, f, steps[0]);
      RunHolds(start, Apply(f, steps[0]), steps[1..], end);
    }
  }

  // ---------- Main theorems ----------

  /** In every interleaving at most 64 dispatches are under way. */
  lemma AtMost64InFlight(t: Table, job: int, targets: seq<NodeId>, steps: seq<Step>, end: FanOut)
    requires (forall node :: (job, node) !in t) && Run(Begin(t, job, targets), steps, end)
    ensures Count(end.workers, IsDispatching) <= 64
  {
    BeginHolds(t, job, targets);
    RunHolds(t, Begin(t, job, targets), steps, end);
    FewerDispatching(end.workers);
  }

  lemma {:induction false} FewerDispatching(ws: seq<Worker>)
    ensures Count(ws, IsDispatching) <= Count(ws, HoldsSlot)
  {
    if ws != [] {
      FewerDispatching(ws[..|ws| - 1]);
    }
  }

  /** The row tells of the reply: success if it neither says that it failed nor has an exit code. */
  predicate Tells(row: Row, reply: Reply) {
    row.status in {Success, Failed} && (row.status == Success <==> !reply.failed && reply.exitCode == 0) &&
    row.exitCode == reply.exitCode && row.output == reply.output
  }

  /** In every interleaving, when fanOut returns each distinct target has its one row: it tells of the last reply
      stored for the node if there was one - never a timeout then - and is a timeout otherwise. The rows of
      other jobs are as they were. */
  lemma EveryTargetIsSettled(t: Table, job: int, targets: seq<NodeId>, steps: seq<Step>, end: FanOut)
    requires (forall node :: (job, node) !in t) && Run(Begin(t, job, targets), steps, end) && end.swept
    ensures forall node :: (job, node) in end.table <==> node in targets
    ensures forall node :: node in targets ==>
                             var row := end.table[(job, node)];
                             if node in end.recorded then row == ResultOf(end.recorded[node]) && Tells(row, end.recorded[node])
                             else row == Row(Timeout, 0, "")
    ensures forall k: (int, NodeId) :: k.0 != job ==> (k in end.table <==> k in t) && (k in t ==> end.table[k] == t[k])
    ensures forall i :: 0 <= i < |end.workers| ==> end.workers[i].Finished?
  {
    BeginHolds(t, job, targets);
    RunHolds(t, Begin(t, job, targets), steps, end);
    CollectedMeansFinished(end);
  }

  /** A reply once stored stays the row of its node for good, or is replaced by a later reply. */
  lemma {:induction false} RecordedStays(f: FanOut, steps: seq<Step>, end: FanOut, node: NodeId)
    requires Run(f, steps, end) && node in f.recorded
    ensures node in end.recorded
    decreases |steps|
  {
    if steps != [] {
      RecordedStays(Apply(f, steps[0]), steps[1..], end, node);
    }
  }

  /** Where a reply for the node can come from: it is recorded, it is held by a worker, or it is yet to arrive. */
  ghost predicate ComesFrom(f: FanOut, steps: seq<Step>, node: NodeId, reply: Reply) {
    (node in f.recorded && f.recorded[node] == reply) ||
    (exists i: nat :: i < |f.workers| && i < |f.targets| && f.targets[i] == node && f.workers[i] == Replied(reply)) ||
    Answered(f.targets, steps, node, reply)
  }

  /** The node of some worker answered with this reply. */
  ghost predicate Answered(targets: seq<NodeId>, steps: seq<Step>, node: NodeId, reply: Reply) {
    exists i: nat, k: nat :: k < |steps| && steps[k] == Answer(i, reply) && i < |targets| && targets[i] == node
  }

  lemma StepComesFrom(f: FanOut, s: Step, rest: seq<Step>, node: NodeId, reply: Reply)
    requires |f.workers| == |f.targets| && Enabled(f, s) && ComesFrom(Apply(f, s), rest, node, reply)
    ensures ComesFrom(f, [s] + rest, node, reply)
  {
    var next := Apply(f, s);
    if Answered(f.targets, rest, node, reply) {
      var i: nat, k: nat :| k < |rest| && rest[k] == Answer(i, reply) && i < |f.targets| && f.targets[i] == node;
      assert ([s] + rest)[k + 1] == Answer(i, reply);
    } else if !(node in next.recorded && next.recorded[node] == reply) {
      var i: nat :| i < |next.workers| && f.targets[i] == node && next.workers[i] == Replied(reply);
      if f.workers[i] != Replied(reply) {
        assert ([s] + rest)[0] == Answer(i, reply);
      }
    }
  }

  /** What is recorded of a node is a reply that it gave. */
  lemma {:induction false} RecordedComesFrom(f: FanOut, steps: seq<Step>, end: FanOut, node: NodeId)
    requires Run(f, steps, end) && node in end.recorded
    ensures ComesFrom(f, steps, node, end.recorded[node])
    decreases |steps|
  {
    if steps != [] {
      RecordedComesFrom(Apply(f, steps[0]), steps[1..], end, node);
      StepComesFrom(f, steps[0], steps[1..], node, end.recorded[node]);
      assert [steps[0]] + steps[1..] == steps;
    }
  }

  lemma RecordedIsAnswered(t: Table, job: int, targets: seq<NodeId>, steps: seq<Step>, end: FanOut, node: NodeId)
    requires Run(Begin(t, job, targets), steps, end) && node in end.recorded
    ensures Answered(targets, steps, node, end.recorded[node])
  {
    RecordedComesFrom(Begin(t, job, targets), steps, end, node);
  }

  /** And a reply that arrives can be stored, and then shows in the row of its node. */
  lemma AnswerIsStored(f: FanOut, i: nat, reply: Reply)
    requires |f.workers| == |f.targets| && At(f, i, Dispatching) && (f.job, f.targets[i]) in f.table
    ensures var answered := Apply(f, Answer(i, reply));
            Enabled(answered, Store(i)) &&
            var stored := Apply(answered, Store(i));
            stored.recorded == f.recorded[f.targets[i] := reply] && Tells(stored.table[(f.job, f.targets[i])], reply)
  {
  }

  // ---------- It always comes to an end ----------

  function StepsLeft(w: Worker): nat {
    match w
    case Queued => 5
    case Dispatching => 4
    case Replied(_) => 3
    case Releasing => 2
    case Signalling => 1
    case Finished => 0
  }

  function AllStepsLeft(ws: seq<Worker>): nat {
    if ws == [] then 0 else AllStepsLeft(ws[..|ws| - 1]) + StepsLeft(ws[|ws| - 1])
  }

  /** How many steps there can still be. */
  function Remaining(f: FanOut): int {
    AllStepsLeft(f.workers) + (|f.targets| - f.collected) + if f.swept then 0 else 1
  }

  lemma {:induction false} StepsLeftUpdate(ws: seq<Worker>, i: nat, w: Worker)
    requires i < |ws|
    ensures AllStepsLeft(ws[i := w]) == AllStepsLeft(ws) - StepsLeft(ws[i]) + StepsLeft(w)
  {
    var n := |ws| - 1;
    if i == n {
      assert ws[i := w][..n] == ws[..n];
    } else {
      assert ws[i := w][..n] == ws[..n][i := w];
      StepsLeftUpdate(ws[..n], i, w);
    }
  }

  lemma EveryStepCounts(f: FanOut, s: Step)
    requires Counted(f) && Enabled(f, s)
    ensures 0 <= Remaining(Apply(f, s)) < Remaining(f)
  {
    StepKeepsCounts(f, s);
    if !s.Collect? && !s.Sweep? {
      StepsLeftUpdate(f.workers, s.i, Apply(f, s).workers[s.i]);
    }
  }

  lemma {:induction false} SomeWorker(ws: seq<Worker>, p: Worker -> bool) returns (i: nat)
    requires Count(ws, p) > 0
    ensures i < |ws| && p(ws[i])
  {
    var n := |ws| - 1;
    if p(ws[n]) {
      i := n;
    } else {
      i := SomeWorker(ws[..n], p);
    }
  }

  lemma {:induction false} CountSome(ws: seq<Worker>, i: nat, p: Worker -> bool)
    requires i < |ws| && p(ws[i])
    ensures Count(ws, p) > 0
  {
    if i < |ws| - 1 {
      CountSome(ws[..|ws| - 1], i, p);
    }
  }

  lemma {:induction false} SomeUnfinished(ws: seq<Worker>) returns (i: nat)
    requires Count(ws, IsFinished) < |ws|
    ensures i < |ws| && !ws[i].Finished?
  {
    var n := |ws| - 1;
    if !ws[n].Finished? {
      i := n;
    } else {
      i := SomeUnfinished(ws[..n]);
    }
  }

  /** The step that moves a worker on, whatever the node answers. */
  function NextStep(w: Worker, i: nat): Step {
    match w
    case Queued => Start(i)
    case Dispatching => NoAnswer(i)
    case Replied(_) => Store(i)
    case Releasing => FreeSlot(i)
    case _ => Signal(i)
  }

  lemma SlotHolderMoves(f: FanOut) returns (s: Step)
    requires Counted(f) && f.held > 0
    ensures Enabled(f, s)
  {
    var i := SomeWorker(f.workers, HoldsSlot);
    s := NextStep(f.workers[i], i);
  }

  /** No deadlock: until the sweep some step is possible. */
  lemma NeverStuck(f: FanOut) returns (s: Step)
    requires Counted(f) && !f.swept
    ensures Enabled(f, s)
  {
    if f.collected == |f.targets| {
      s := Sweep;
    } else if f.collected < f.sent {
      s := Collect;
    } else {
      var i := SomeUnfinished(f.workers);
      if f.workers[i].Queued? && f.held == FAN_OUT_CONCURRENCY {
        s := SlotHolderMoves(f);
      } else {
        s := NextStep(f.workers[i], i);
        if HoldsSlot(f.workers[i]) {
          CountSome(f.workers, i, HoldsSlot);
        }
      }
    }
  }

  lemma {:induction false} RunsAreShort(f: FanOut, steps: seq<Step>, end: FanOut)
    requires Counted(f) && Run(f, steps, end)
    ensures Counted(end) && |steps| + Remaining(end) <= Remaining(f) && Remaining(end) >= 0
    decreases |steps|
  {
    if steps != [] {
      EveryStepCounts(f, steps[0]);
      StepKeepsCounts(f, steps[0]);
      RunsAreShort(Apply(f, steps[0]), steps[1..], end);
    }
  }

  lemma {:induction false} AllQueued(n: nat)
    ensures AllStepsLeft(seq(n, i => Queued)) == 5 * n
  {
    if n > 0 {
      assert seq(n, i => Queued)[..n - 1] == seq(n - 1, i => Queued);
      AllQueued(n - 1);
    }
  }

  /** fanOut always returns: in every interleaving at most six steps for each target and the sweep are taken,
      and as long as the sweep has not been there is a next one. */
  lemma FanOutReturns(t: Table, job: int, targets: seq<NodeId>, steps: seq<Step>, end: FanOut)
    requires (forall node :: (job, node) !in t) && Run(Begin(t, job, targets), steps, end)
    ensures |steps| <= 6 * |targets| + 1
    ensures end.swept || exists s :: Enabled(end, s)
  {
    BeginHolds(t, job, targets);
    RunsAreShort(Begin(t, job, targets), steps, end);
    AllQueued(|targets|);
    if !end.swept {
      var s := NeverStuck(end);
    }
  }

  // ---------- The summary ----------

  datatype Summary = Summary(total: nat, success: nat, failed: nat, timeout: nat)

  function CountStatus(rows: seq<Row>, s: Status): (n: nat)
    ensures n <= |rows|
  {
    if rows == [] then 0 else CountStatus(rows[..|rows| - 1], s) + if rows[|rows| - 1].status == s then 1 else 0
  }

  method Summarize(results: seq<Row>) returns (s: Summary)
    ensures s == Summary(|results|, CountStatus(results, Success), CountStatus(results, Failed),
                         CountStatus(results, Timeout))
  {
    s := Summary(|results|, 0, 0, 0);
    for i := 0 to |results|
      invariant s.total == |results| && s.success == CountStatus(results[..i], Success)
      invariant s.failed == CountStatus(results[..i], Failed) && s.timeout == CountStatus(results[..i], Timeout)
    {
      assert results[..i + 1][..i] == results[..i];
      match results[i].status
      case Success => s := s.(success := s.success + 1);
      case Failed => s := s.(failed := s.failed + 1);
      case Timeout => s := s.(timeout := s.timeout + 1);
      case _ =>
    }
    assert results[..|results|] == results;
  }

  predicate Terminal(s: Status) { s == Success || s == Failed || s == Timeout }

  /** The counters add up exactly when every row is in a terminal state. */
  lemma {:induction false} CountersAddUp(rows: seq<Row>)
    ensures CountStatus(rows, Success) + CountStatus(rows, Failed) + CountStatus(rows, Timeout) <= |rows|
    ensures CountStatus(rows, Success) + CountStatus(rows, Failed) + CountStatus(rows, Timeout) == |rows|
            <==> forall i :: 0 <= i < |rows| ==> Terminal(rows[i].status)
  {
    if rows != [] {
      CountersAddUp(rows[..|rows| - 1]);
      FrontAndLast(rows);
    }
  }

  /** `nodes` lists the nodes of the job's rows once each, as the query of listResults does. */
  ghost predicate ListsRows(t: Table, job: int, nodes: seq<NodeId>) {
    (forall node :: node in nodes <==> (job, node) in t) &&
    forall i, j :: 0 <= i < j < |nodes| ==> nodes[i] != nodes[j]
  }

  function RowsOf(t: Table, job: int, nodes: seq<NodeId>): seq<Row>
    requires forall node :: node in nodes ==> (job, node) in t
  {
    seq(|nodes|, i requires 0 <= i < |nodes| => assert nodes[i] in nodes; t[(job, nodes[i])])
  }

  /** What the handler returns: one result for each distinct target, and success + failed + timeout = total. */
  lemma SummaryAddsUp(t: Table, job: int, targets: seq<NodeId>, steps: seq<Step>, end: FanOut, nodes: seq<NodeId>)
    requires (forall node :: (job, node) !in t) && Run(Begin(t, job, targets), steps, end) && end.swept
    requires ListsRows(end.table, job, nodes)
    ensures (forall node :: node in nodes <==> node in targets) && |nodes| == |set node | node in targets|
    ensures var rows := RowsOf(end.table, job, nodes);
            CountStatus(rows, Success) + CountStatus(rows, Failed) + CountStatus(rows, Timeout) == |nodes|
  {
    EveryTargetIsSettled(t, job, targets, steps, end);
    var rows := RowsOf(end.table, job, nodes);
    forall i | 0 <= i < |rows|
      ensures Terminal(rows[i].status)
    {
      assert nodes[i] in nodes;
    }
    CountersAddUp(rows);
    DistinctLength(nodes);
    assert (set node | node in nodes) == set node | node in targets;
  }

  lemma {:induction false} DistinctLength(nodes: seq<NodeId>)
    requires forall i, j :: 0 <= i < j < |nodes| ==> nodes[i] != nodes[j]
    ensures |set node | node in nodes| == |nodes|
  {
    if nodes != [] {
      var n := |nodes| - 1;
      DistinctLength(nodes[..n]);
      assert (set node | node in nodes) == (set node | node in nodes[..n]) + {nodes[n]};
    }
  }

  // ---------- The store as the program has it ----------

  class ResultStore {
    var table: Table

    constructor (table: Table)
      ensures this.table == table
    {
      this.table := table;
    }

    /** initResult: refused where the row is there already. */
    method InitResult(job: int, node: NodeId) returns (ok: bool)
      modifies this
      ensures table == Init(old(table), job, node) && ok == ((job, node) !in old(table))
      ensures table == if ok then old(table)[(job, node) := Row(Pending, 0, "")] else old(table)
    {
      ok := (job, node) !in table;
      if ok {
        table := table[(job, node) := Row(Pending, 0, "")];
      }
    }

    /** The loop of handleCreateJob, which only logs refusals. */
    method InitResults(job: int, targets: seq<NodeId>)
      modifies this
      ensures table == InitAll(old(table), job, targets)
    {
      for i := 0 to |targets|
        invariant table == InitAll(old(table), job, targets[..i])
      {
        assert targets[..i + 1][..i] == targets[..i];
        var ok := InitResult(job, targets[i]);
      }
      assert targets[..|targets|] == targets;
    }

    method StoreReply(job: int, node: NodeId, reply: Reply)
      modifies this
      ensures table == SetResult(old(table), job, node, ResultOf(reply))
      ensures table.Keys == old(table).Keys && forall k :: k in table && k != (job, node) ==> table[k] == old(table)[k]
      ensures (job, node) in table ==> Tells(table[(job, node)], reply)
    {
      var status := Success;
      if reply.failed || reply.exitCode != 0 {
        status := Failed;
      }
      if (job, node) in table {
        table := table[(job, node) := Row(status, reply.exitCode, reply.output)];
      }
    }

    method SweepPending(job: int)
      modifies this
      ensures table == MarkPendingAsTimeout(old(table), job)
      ensures table.Keys == old(table).Keys
      ensures forall k :: k in table && !(k.0 == job && old(table)[k].status in {Pending, Running}) ==> table[k] == old(table)[k]
      ensures forall k :: k in table && k.0 == job && old(table)[k].status in {Pending, Running} ==>
                            table[k] == Row(Timeout, old(table)[k].exitCode, old(table)[k].output)
    {
      table := map k | k in table :: if k.0 == job && table[k].status in {Pending, Running}
                                     then table[k].(status := Timeout) else table[k];
    }
  }
}
