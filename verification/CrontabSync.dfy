/** Several panel instances rewriting one crontab: `syncCrontab` under the host-wide lock, step by step. */
module CrontabSync {
  import opened Text
  import opened Crontab
  import opened CrontabLaws
  import opened CrontabComments
  import opened CrontabRows

  type Worker = nat

  /** Where one call of syncCrontab stands. */
  datatype Pc =
    | Waiting                   // job list read, polling for the lock
    | Locked
    | HasRead(existing: string)
    | Closing                   // written or failed; the deferred release is still to run

  datatype Call = Call(key: string, jobs: seq<CronJobLine>, pc: Pc)

  datatype Write = Write(key: string, jobs: seq<CronJobLine>)

  /** `log` is the history of the successful writes. */
  datatype Host = Host(text: string, holder: Option<Worker>, calls: map<Worker, Call>, log: seq<Write>)

  datatype Step =
    | Snapshot(w: Worker, key: string, jobs: seq<CronJobLine>)
    | Acquire(w: Worker)
    | GiveUp(w: Worker)         // the lock stayed busy until the deadline, or flock failed
    | Read(w: Worker)
    | ReadFails(w: Worker)
    | MergeAndWrite(w: Worker)
    | WriteFails(w: Worker)
    | Release(w: Worker)
    | Die(w: Worker)            // the process ends and the kernel drops its lock

  predicate At(h: Host, w: Worker, pc: Pc) {
    w in h.calls && h.calls[w].pc == pc
  }

  predicate Enabled(h: Host, s: Step) {
    match s
    case Snapshot(w, _, _) => w !in h.calls
    case Acquire(w) => At(h, w, Waiting) && h.holder == None
    case GiveUp(w) => At(h, w, Waiting)
    case Read(w) => At(h, w, Locked)
    case ReadFails(w) => At(h, w, Locked)
    case MergeAndWrite(w) => w in h.calls && h.calls[w].pc.HasRead?
    case WriteFails(w) => w in h.calls && h.calls[w].pc.HasRead?
    case Release(w) => At(h, w, Closing)
    case Die(w) => w in h.calls
  }

  function Goto(h: Host, w: Worker, pc: Pc): Host
    requires w in h.calls
  {
    h.(calls := h.calls[w := h.calls[w].(pc := pc)])
  }

  function Leave(h: Host, w: Worker): Host {
    h.(calls := h.calls - {w}, holder := if h.holder == Some(w) then None else h.holder)
  }

  function Apply(h: Host, s: Step): Host
    requires Enabled(h, s)
  {
    match s
    case Snapshot(w, key, jobs) => h.(calls := h.calls[w := Call(key, jobs, Waiting)])
    case Acquire(w) => Goto(h, w, Locked).(holder := Some(w))
    case GiveUp(w) => Leave(h, w)
    case Read(w) => Goto(h, w, HasRead(h.text))
    case ReadFails(w) => Goto(h, w, Closing)
    case MergeAndWrite(w) =>
      var c := h.calls[w];
      Goto(h, w, Closing).(
      text := MergeManagedBlock(c.pc.existing, Render(c.key, c.jobs), c.key),
      log := h.log + [Write(c.key, c.jobs)])
    case WriteFails(w) => Goto(h, w, Closing)
    case Release(w) => Leave(h, w)
    case Die(w) => Leave(h, w)
  }

  /** A run: any interleaving of the steps of any number of calls. */
  predicate Feasible(h: Host, steps: seq<Step>)
    decreases |steps|
  {
    steps == [] || (Enabled(h, steps[0]) && Feasible(Apply(h, steps[0]), steps[1..]))
  }

  function Exec(h: Host, steps: seq<Step>): Host
    requires Feasible(h, steps)
    decreases |steps|
  {
    if steps == [] then h else Exec(Apply(h, steps[0]), steps[1..])
  }

  /** Instances have marker-safe keys, and what they print holds no line shaped like a marker. */
  predicate Orderly(steps: seq<Step>) {
    forall s :: s in steps && s.Snapshot? ==> IsKey(s.key) && Clean(s.key, s.jobs)
  }

  /** No call is under way. */
  predicate Idle(h: Host) {
    h.holder == None && h.calls == map[]
  }

  predicate Initial(h: Host) {
    Idle(h) && h.log == [] && WellFormed(h.text)
  }

  /** The snapshot that a key's instance last wrote successfully. */
  function LastWrite(log: seq<Write>, key: string): Option<seq<CronJobLine>> {
    if log == [] then None
    else if log[|log| - 1].key == key then Some(log[|log| - 1].jobs)
    else LastWrite(log[..|log| - 1], key)
  }

  function ExpectedBlock(initial: string, log: seq<Write>, key: string): seq<string> {
    match LastWrite(log, key)
    case Some(jobs) => BlockLines(key, jobs)
    case None => Block(initial, Keyed(key))
  }

  /** What the crontab must hold: the user's lines, and for each key exactly its last written block. */
  ghost predicate HoldsAllUpdates(initial: string, h: Host) {
    WellFormed(h.text) && Foreign(h.text) == Foreign(initial) &&
    (h.log != [] ==> Block(h.text, Legacy) == []) &&
    forall key :: Block(h.text, Keyed(key)) == ExpectedBlock(initial, h.log, key)
  }

  /** At most one call is inside the lock, and what it read is still the crontab. */
  predicate LockInvariant(h: Host) {
    forall w :: w in h.calls ==>
                  var c := h.calls[w];
                  (!c.pc.Waiting? ==> h.holder == Some(w)) &&
                  (c.pc.HasRead? ==> c.pc.existing == h.text)
  }

  predicate Tidy(h: Host) {
    forall w :: w in h.calls ==> IsKey(h.calls[w].key) && Clean(h.calls[w].key, h.calls[w].jobs)
  }

  lemma WriteKeepsUpdates(initial: string, h: Host, w: Worker)
    requires HoldsAllUpdates(initial, h) && LockInvariant(h) && Tidy(h) && Enabled(h, MergeAndWrite(w))
    ensures HoldsAllUpdates(initial, Apply(h, MergeAndWrite(w)))
  {
    var c := h.calls[w];
    var next := Apply(h, MergeAndWrite(w));
    MergeViews(h.text, c.key, c.jobs);
    forall key
      ensures Block(next.text, Keyed(key)) == ExpectedBlock(initial, next.log, key)
    {
      LastWriteIs(h.log, Write(c.key, c.jobs), key);
    }
  }

  lemma LastWriteIs(log: seq<Write>, w: Write, key: string)
    ensures LastWrite(log + [w], key) == if w.key == key then Some(w.jobs) else LastWrite(log, key)
  {
    assert (log + [w])[..|log|] == log;
  }

  lemma StepKeepsUpdates(initial: string, h: Host, s: Step)
    requires HoldsAllUpdates(initial, h) && LockInvariant(h) && Tidy(h) && Enabled(h, s)
    ensures HoldsAllUpdates(initial, Apply(h, s))
  {
    if s.MergeAndWrite? {
      WriteKeepsUpdates(initial, h, s.w);
    } else {
      assert Apply(h, s).text == h.text && Apply(h, s).log == h.log;
    }
  }

  lemma StepKeepsLock(h: Host, s: Step)
    requires LockInvariant(h) && Enabled(h, s)
    ensures LockInvariant(Apply(h, s))
  {
  }

  lemma StepKeepsTidy(h: Host, s: Step)
    requires Tidy(h) && Enabled(h, s)
    requires s.Snapshot? ==> IsKey(s.key) && Clean(s.key, s.jobs)
    ensures Tidy(Apply(h, s))
  {
  }

  lemma {:induction false} RunKeepsLock(h: Host, steps: seq<Step>)
    requires LockInvariant(h) && Feasible(h, steps)
    ensures LockInvariant(Exec(h, steps))
    decreases |steps|
  {
    if steps != [] {
      StepKeepsLock(h, steps[0]);
      RunKeepsLock(Apply(h, steps[0]), steps[1..]);
    }
  }

  lemma {:induction false} RunKeepsUpdates(initial: string, h: Host, steps: seq<Step>)
    requires HoldsAllUpdates(initial, h) && LockInvariant(h) && Tidy(h)
    requires Feasible(h, steps) && Orderly(steps)
    ensures HoldsAllUpdates(initial, Exec(h, steps))
    decreases |steps|
  {
    if steps != [] {
      var s := steps[0];
      assert s in steps;
      StepKeepsLock(h, s);
      StepKeepsTidy(h, s);
      StepKeepsUpdates(initial, h, s);
      assert Orderly(steps[1..]);
      RunKeepsUpdates(initial, Apply(h, s), steps[1..]);
    }
  }

  /** Main theorem: in every interleaving the crontab holds the user's own lines in order and, for each
      key that was written, exactly the rendering of the last snapshot written; a key that was not
      keeps what it had. */
  lemma NoUpdateIsLost(h: Host, steps: seq<Step>)
    requires Initial(h) && Feasible(h, steps) && Orderly(steps)
    ensures var end := Exec(h, steps);
            WellFormed(end.text) && Foreign(end.text) == Foreign(h.text) &&
            forall key :: Block(end.text, Keyed(key)) ==
                          match LastWrite(end.log, key)
                          case Some(jobs) => BlockLines(key, jobs)
                          case None => Block(h.text, Keyed(key))
  {
    RunKeepsUpdates(h.text, h, steps);
  }

  /** Mutual exclusion, in every interleaving, whatever the crontab and the jobs hold. */
  lemma OneCallInside(h: Host, steps: seq<Step>, w1: Worker, w2: Worker)
    requires Idle(h) && Feasible(h, steps)
    requires var end := Exec(h, steps);
             w1 in end.calls && w2 in end.calls && !end.calls[w1].pc.Waiting? && !end.calls[w2].pc.Waiting?
    ensures w1 == w2
  {
    RunKeepsLock(h, steps);
  }

  /** A call may die anywhere: that leaves the crontab as it is, and the lock free for others. */
  lemma DeathFreesTheLock(h: Host, w: Worker)
    requires LockInvariant(h) && w in h.calls
    ensures Enabled(h, Die(w))
    ensures var end := Apply(h, Die(w));
            end.text == h.text && end.log == h.log && w !in end.calls && end.holder != Some(w) &&
            (!h.calls[w].pc.Waiting? ==> end.holder == None)
  {
  }

  /** The log is what was done: each successful write adds its own snapshot, nothing else changes it. */
  lemma {:induction false} LogGrows(h: Host, steps: seq<Step>)
    requires Feasible(h, steps)
    ensures h.log <= Exec(h, steps).log
    ensures |Exec(h, steps).log| == |h.log| + Writes(steps)
    decreases |steps|
  {
    if steps != [] {
      LogGrows(Apply(h, steps[0]), steps[1..]);
    }
  }

  function Writes(steps: seq<Step>): nat {
    if steps == [] then 0 else (if steps[0].MergeAndWrite? then 1 else 0) + Writes(steps[1..])
  }

  /** The steps of one call that nobody interrupts. */
  function SoloSteps(w: Worker, key: string, lines: seq<CronJobLine>, locks: bool, readOk: bool, writeOk: bool): seq<Step> {
    [Snapshot(w, key, lines)] + if !locks then [GiveUp(w)] else [Acquire(w)] + InsideSteps(w, readOk, writeOk)
  }

  /** Those inside the lock. */
  function InsideSteps(w: Worker, readOk: bool, writeOk: bool): seq<Step> {
    if !readOk then [ReadFails(w)] + [Release(w)]
    else [Read(w)] + ([if writeOk then MergeAndWrite(w) else WriteFails(w)] + [Release(w)])
  }

  /** Rows that pass the validators, with expressions on one line and comments that print no marker. */
  predicate Presentable(rows: seq<Job>, key: string) {
    AllRows(rows) && AllOneLine(rows) && forall j :: j in rows ==> HarmlessComment(j.comment, key)
  }

  /** The one crontab of the host, seen from one call of syncCrontab. */
  class CrontabHost {
    var text: string
    var locked: bool

    constructor (text: string)
      ensures this.text == text && !locked
    {
      this.text, locked := text, false;
    }

    /** syncCrontab. `jobs` are the enabled rows; the flags tell whether reading them, `crontab -l`
        and `crontab -` succeed. The lock is left as it was found. */
    method SyncCrontab(key: string, jobs: Option<seq<Job>>, readOk: bool, writeOk: bool) returns (ok: bool)
      modifies this
      ensures ok == (jobs.Some? && !old(locked) && readOk && writeOk)
      ensures text == if ok then MergeManagedBlock(old(text), Render(key, JobLinesOf(jobs.value)), key) else old(text)
      ensures locked == old(locked)
      ensures ok && IsKey(key) && WellFormed(old(text)) && Presentable(jobs.value, key) ==>
                ShowsBlock(Block(text, Keyed(key)), key, jobs.value)
    {
      if jobs.None? { return false; }
      var lines: seq<CronJobLine> := [];
      for i := 0 to |jobs.value|
        invariant lines == JobLinesOf(jobs.value[..i])
        invariant text == old(text) && locked == old(locked)
      {
        assert jobs.value[..i + 1][..i] == jobs.value[..i];
        lines := lines + [JobLine(jobs.value[i])];
      }
      assert jobs.value[..|jobs.value|] == jobs.value;
      if locked { return false; }
      locked := true;
      ok := false;
      if IsKey(key) && WellFormed(text) && Presentable(jobs.value, key) {
        RowsAreScheduledIff(text, key, jobs.value);
      }
      if readOk {
        var managed := RenderManagedBlock(key, lines);
        var merged := MergeManagedBlock(text, managed, key);
        if writeOk {
          text, ok := merged, true;
        }
      }
      locked := false;
    }
  }

  lemma ExecStep(h: Host, s: Step, rest: seq<Step>)
    requires Enabled(h, s) && Feasible(Apply(h, s), rest)
    ensures Feasible(h, [s] + rest) && Exec(h, [s] + rest) == Exec(Apply(h, s), rest)
  {
    assert ([s] + rest)[1..] == rest;
  }

  lemma InsideRuns(h: Host, w: Worker, readOk: bool, writeOk: bool)
    requires At(h, w, Locked) && h.holder == Some(w)
    ensures var steps, c := InsideSteps(w, readOk, writeOk), h.calls[w];
            Feasible(h, steps) &&
            Exec(h, steps) ==
            Host(if readOk && writeOk then MergeManagedBlock(h.text, Render(c.key, c.jobs), c.key) else h.text,
                 None, h.calls - {w}, if readOk && writeOk then h.log + [Write(c.key, c.jobs)] else h.log)
  {
    var last := if !readOk then ReadFails(w) else if writeOk then MergeAndWrite(w) else WriteFails(w);
    var h1 := if readOk then Apply(h, Read(w)) else h;
    assert [Release(w)] + [] == [Release(w)];
    ExecStep(Apply(h1, last), Release(w), []);
    ExecStep(h1, last, [Release(w)]);
    if readOk {
      ExecStep(h, Read(w), [last] + [Release(w)]);
    }
    assert Leave(Apply(h1, last), w).calls == h.calls - {w};
  }

  /** The sequential method is the protocol run without interruption. */
  lemma SoloCall(h: Host, w: Worker, key: string, lines: seq<CronJobLine>, readOk: bool, writeOk: bool)
    requires w !in h.calls && h.holder != Some(w)
    ensures var steps := SoloSteps(w, key, lines, h.holder == None, readOk, writeOk);
            Feasible(h, steps) &&
            var end := Exec(h, steps);
            end.text == (if h.holder == None && readOk && writeOk
                         then MergeManagedBlock(h.text, Render(key, lines), key) else h.text) &&
            end.log == (if h.holder == None && readOk && writeOk then h.log + [Write(key, lines)] else h.log) &&
            end.calls == h.calls && end.holder == h.holder
  {
    var h1 := Apply(h, Snapshot(w, key, lines));
    if h.holder != None {
      ExecStep(h1, GiveUp(w), []);
      assert [GiveUp(w)] + [] == [GiveUp(w)];
      ExecStep(h, Snapshot(w, key, lines), [GiveUp(w)]);
      assert h1.calls - {w} == h.calls;
    } else {
      var h2 := Apply(h1, Acquire(w));
      var tail := InsideSteps(w, readOk, writeOk);
      InsideRuns(h2, w, readOk, writeOk);
      ExecStep(h1, Acquire(w), tail);
      ExecStep(h, Snapshot(w, key, lines), [Acquire(w)] + tail);
      assert h2.calls - {w} == h.calls;
    }
  }

  /** Comments that print a marker have to be excluded: a single call with valid jobs keeps all updates if and only if
      none of its comments does. */
  lemma OneWriteKeepsIff(h: Host, w: Worker, key: string, lines: seq<CronJobLine>)
    requires Initial(h) && IsKey(key) && AllValid(lines)
    ensures var steps := SoloSteps(w, key, lines, true, true, true);
            Feasible(h, steps) &&
            (HoldsAllUpdates(h.text, Exec(h, steps)) <==>
             forall j :: j in lines && j.comment != "" ==> HarmlessLine(CommentLine(j), key))
  {
    SoloCall(h, w, key, lines, true, true);
    MergeViewsIff(h.text, key, lines);
    var end := Exec(h, SoloSteps(w, key, lines, true, true, true));
    assert end.log == [Write(key, lines)] && [Write(key, lines)][..0] == [];
    forall other
      ensures ExpectedBlock(h.text, end.log, other) ==
              if other == key then BlockLines(key, lines) else Block(h.text, Keyed(other))
    {
      LastWriteIs([], Write(key, lines), other);
    }
    assert HoldsAllUpdates(h.text, end) <==> MergedWell(h.text, end.text, key, lines);
  }
}
