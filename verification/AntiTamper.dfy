/** internal/modules/antitamper/{scanner,store,monitor}.go: a baseline of file hashes, the changes a scan finds
    against it, the log of those changes, and the baseline that takes them over. */
module AntiTamper {
  import opened Text

  type FilePath = string
  type Hash = string

  datatype FileState = FileState(path: FilePath, hash: Hash, mtime: int, mode: nat)

  type Snapshot = map<FilePath, FileState>

  datatype ChangeType = Added | Deleted | Modified
  datatype Change = Change(path: FilePath, kind: ChangeType, oldHash: Hash, newHash: Hash)

  /** Every state is filed under its own path, as ScanTree and the baseline query file it. */
  ghost predicate Keyed(s: Snapshot) {
    forall p :: p in s ==> s[p].path == p
  }

  // ---------- Diff ----------

  /** What there is to report of one path. */
  function ChangeOf(base: Snapshot, cur: Snapshot, p: FilePath): Option<Change> {
    if p in cur then
      if p !in base then Some(Change(p, Added, "", cur[p].hash))
      else if base[p].hash != cur[p].hash then Some(Change(p, Modified, base[p].hash, cur[p].hash))
      else None
    else if p in base then Some(Change(p, Deleted, base[p].hash, ""))
    else None
  }

  predicate Mentions(changes: seq<Change>, p: FilePath) {
    exists i :: 0 <= i < |changes| && changes[i].path == p
  }

  predicate OncePerPath(changes: seq<Change>) {
    forall i, j :: 0 <= i < j < |changes| ==> changes[i].path != changes[j].path
  }

  /** Every change there is, once, in any order. */
  ghost predicate IsDiff(base: Snapshot, cur: Snapshot, changes: seq<Change>) {
    OncePerPath(changes) &&
    (forall i :: 0 <= i < |changes| ==> ChangeOf(base, cur, changes[i].path) == Some(changes[i])) &&
    forall p :: ChangeOf(base, cur, p).Some? ==> Mentions(changes, p)
  }

  lemma MentionsSnoc(changes: seq<Change>, c: Change, p: FilePath)
    ensures Mentions(changes + [c], p) <==> Mentions(changes, p) || c.path == p
  {
    if Mentions(changes, p) {
      var i :| 0 <= i < |changes| && changes[i].path == p;
      assert (changes + [c])[i].path == p;
    }
    assert (changes + [c])[|changes|] == c;
  }

  lemma AddChange(base: Snapshot, cur: Snapshot, changes: seq<Change>, c: Change)
    requires OncePerPath(changes) && !Mentions(changes, c.path) && ChangeOf(base, cur, c.path) == Some(c)
    requires forall i :: 0 <= i < |changes| ==> ChangeOf(base, cur, changes[i].path) == Some(changes[i])
    ensures OncePerPath(changes + [c])
    ensures forall i :: 0 <= i < |changes| + 1 ==> ChangeOf(base, cur, (changes + [c])[i].path) == Some((changes + [c])[i])
    ensures forall p :: Mentions(changes + [c], p) <==> Mentions(changes, p) || c.path == p
  {
    forall p
      ensures Mentions(changes + [c], p) <==> Mentions(changes, p) || c.path == p
    {
      MentionsSnoc(changes, c, p);
    }
  }

  /** The two loops of Diff, over maps in any order. */
  method Diff(base: Snapshot, cur: Snapshot) returns (changes: seq<Change>)
    ensures IsDiff(base, cur, changes)
  {
    changes := [];
    var todo := cur.Keys;
    while todo != {}
      invariant todo <= cur.Keys && OncePerPath(changes)
      invariant forall i :: 0 <= i < |changes| ==> ChangeOf(base, cur, changes[i].path) == Some(changes[i])
      invariant forall p :: Mentions(changes, p) <==> p in cur.Keys - todo && ChangeOf(base, cur, p).Some?
      decreases todo
    {
      var path :| path in todo;
      var c := cur[path];
      if path !in base {
        AddChange(base, cur, changes, Change(path, Added, "", c.hash));
        changes := changes + [Change(path, Added, "", c.hash)];
      } else if base[path].hash != c.hash {
        AddChange(base, cur, changes, Change(path, Modified, base[path].hash, c.hash));
        changes := changes + [Change(path, Modified, base[path].hash, c.hash)];
      }
      todo := todo - {path};
    }
    todo := base.Keys;
    while todo != {}
      invariant todo <= base.Keys && OncePerPath(changes)
      invariant forall i :: 0 <= i < |changes| ==> ChangeOf(base, cur, changes[i].path) == Some(changes[i])
      invariant forall p :: Mentions(changes, p) <==>
                            (p in cur.Keys || p in base.Keys - todo) && ChangeOf(base, cur, p).Some?
      decreases todo
    {
      var path :| path in todo;
      if path !in cur {
        AddChange(base, cur, changes, Change(path, Deleted, base[path].hash, ""));
        changes := changes + [Change(path, Deleted, base[path].hash, "")];
      }
      todo := todo - {path};
    }
  }

  // ---------- Taking changes over ----------

  const NOTHING: FileState := FileState("", "", 0, 0)

  /** One statement of applyChanges; a path that is not in cur reads as the zero value. */
  function ApplyChange(base: Snapshot, cur: Snapshot, c: Change): Snapshot {
    match c.kind
    case Deleted => base - {c.path}
    case _ =>
      var st := if c.path in cur then cur[c.path] else NOTHING;
      base[st.path := st]
  }

  function ApplyChanges(base: Snapshot, cur: Snapshot, changes: seq<Change>): Snapshot {
    if changes == [] then base
    else ApplyChange(ApplyChanges(base, cur, changes[..|changes| - 1]), cur, changes[|changes| - 1])
  }

  function Hashes(s: Snapshot): map<FilePath, Hash> {
    map p | p in s :: s[p].hash
  }

  /** Where a path stands after the changes: as scanned if one of them is for it, else as before. */
  predicate Settled(base: Snapshot, cur: Snapshot, changes: seq<Change>, after: Snapshot, p: FilePath) {
    if Mentions(changes, p) then (p in after <==> p in cur) && (p in cur ==> after[p] == cur[p])
    else (p in after <==> p in base) && (p in base ==> after[p] == base[p])
  }

  lemma {:induction false} AppliedPath(base: Snapshot, cur: Snapshot, changes: seq<Change>, all: seq<Change>, p: FilePath)
    requires Keyed(cur) && IsDiff(base, cur, all) && changes <= all
    ensures Settled(base, cur, changes, ApplyChanges(base, cur, changes), p)
  {
    if changes != [] {
      var n := |changes| - 1;
      AppliedPath(base, cur, changes[..n], all, p);
      FrontAndLast(changes);
      MentionsSnoc(changes[..n], changes[n], p);
      assert all[n] == changes[n];
    }
  }

  /** What the baseline becomes: the scanned state where the hash changed, the old one where it did not. */
  function Merged(base: Snapshot, cur: Snapshot): Snapshot {
    map p | p in cur :: if p in base && base[p].hash == cur[p].hash then base[p] else cur[p]
  }

  /** Main theorem: a scan's changes, taken over in any order, make the baseline hold exactly the paths and hashes
      scanned; a file whose hash is the same keeps its old time and mode. */
  lemma ApplyingDiffGivesScan(base: Snapshot, cur: Snapshot, changes: seq<Change>)
    requires Keyed(cur) && IsDiff(base, cur, changes)
    ensures ApplyChanges(base, cur, changes) == Merged(base, cur)
    ensures Hashes(ApplyChanges(base, cur, changes)) == Hashes(cur)
  {
    var after := ApplyChanges(base, cur, changes);
    forall p
      ensures p in after <==> p in cur
      ensures p in cur ==> after[p] == Merged(base, cur)[p]
    {
      AppliedPath(base, cur, changes, changes, p);
      if Mentions(changes, p) {
        var i :| 0 <= i < |changes| && changes[i].path == p;
        assert ChangeOf(base, cur, p) == Some(changes[i]);
      } else {
        assert ChangeOf(base, cur, p).None?;
      }
    }
  }

  /** A difference is empty exactly when the hashes are the same. */
  lemma EmptyDiffIff(base: Snapshot, cur: Snapshot, changes: seq<Change>)
    requires IsDiff(base, cur, changes)
    ensures changes == [] <==> Hashes(base) == Hashes(cur)
  {
    if changes == [] {
      forall p
        ensures (p in base <==> p in cur) && (p in base ==> base[p].hash == cur[p].hash)
      {
        assert ChangeOf(base, cur, p).None?;
      }
    } else {
      var p := changes[0].path;
      assert ChangeOf(base, cur, p).Some?;
      assert p in Hashes(base) <==> p in base;
      assert p in Hashes(cur) <==> p in cur;
    }
  }

  /** So the same scan has nothing more to report. */
  lemma SecondDiffIsEmpty(base: Snapshot, cur: Snapshot, changes: seq<Change>, again: seq<Change>)
    requires Keyed(cur) && IsDiff(base, cur, changes) && IsDiff(ApplyChanges(base, cur, changes), cur, again)
    ensures again == []
  {
    ApplyingDiffGivesScan(base, cur, changes);
    EmptyDiffIff(ApplyChanges(base, cur, changes), cur, again);
  }

  // ---------- The event log ----------

  type HashMap = map<FilePath, Hash>

  function ReplayOne(h: HashMap, e: Change): HashMap {
    if e.kind == Deleted then h - {e.path} else h[e.path := e.newHash]
  }

  function Replay(h: HashMap, events: seq<Change>): HashMap {
    if events == [] then h else ReplayOne(Replay(h, events[..|events| - 1]), events[|events| - 1])
  }

  /** The event tells truly what the path was before. */
  predicate Follows(h: HashMap, e: Change) {
    match e.kind
    case Added => e.path !in h && e.oldHash == ""
    case Modified => e.path in h && h[e.path] == e.oldHash != e.newHash
    case Deleted => e.path in h && h[e.path] == e.oldHash && e.newHash == ""
  }

  predicate Chained(h: HashMap, events: seq<Change>) {
    events == [] ||
    var n := |events| - 1;
    Chained(h, events[..n]) && Follows(Replay(h, events[..n]), events[n])
  }

  lemma {:induction false} ReplayConcat(h: HashMap, a: seq<Change>, b: seq<Change>)
    ensures Replay(h, a + b) == Replay(Replay(h, a), b)
    ensures Chained(h, a + b) <==> Chained(h, a) && Chained(Replay(h, a), b)
    decreases |b|
  {
    if b == [] {
      assert a + b == a;
    } else {
      var n := |b| - 1;
      assert (a + b)[..|a| + n] == a + b[..n];
      ReplayConcat(h, a, b[..n]);
    }
  }

  /** Replaying the changes does to the hashes what taking them over does to the baseline. */
  lemma {:induction false} ReplayedPath(base: Snapshot, cur: Snapshot, changes: seq<Change>, all: seq<Change>, p: FilePath)
    requires IsDiff(base, cur, all) && changes <= all
    ensures var h := Replay(Hashes(base), changes);
            if Mentions(changes, p) then (p in h <==> p in cur) && (p in cur ==> h[p] == cur[p].hash)
            else (p in h <==> p in base) && (p in base ==> h[p] == base[p].hash)
    ensures Chained(Hashes(base), changes)
  {
    if changes != [] {
      var n := |changes| - 1;
      ReplayedPath(base, cur, changes[..n], all, p);
      ReplayedPath(base, cur, changes[..n], all, changes[n].path);
      FrontAndLast(changes);
      MentionsSnoc(changes[..n], changes[n], p);
      assert all[n] == changes[n] && forall i :: 0 <= i < n ==> all[i] == changes[i];
      assert !Mentions(changes[..n], changes[n].path);
    }
  }

  lemma ReplayingDiffGivesScan(base: Snapshot, cur: Snapshot, changes: seq<Change>)
    requires IsDiff(base, cur, changes)
    ensures Replay(Hashes(base), changes) == Hashes(cur) && Chained(Hashes(base), changes)
  {
    var h := Replay(Hashes(base), changes);
    ReplayedPath(base, cur, changes, changes, "");
    forall p
      ensures (p in h <==> p in cur) && (p in cur ==> h[p] == cur[p].hash)
    {
      ReplayedPath(base, cur, changes, changes, p);
      if Mentions(changes, p) {
      } else {
        assert ChangeOf(base, cur, p).None?;
      }
    }
  }

  // ---------- Runs ----------

  /** `rebuilt` and `since` are the history: the hashes of the last rebuild and the events since then. */
  datatype State = State(baseline: Snapshot, events: seq<Change>, rebuilt: HashMap, since: seq<Change>)

  /** One round of the monitor, or a rebuild by an administrator. A directory that cannot be scanned is None. */
  datatype Step =
    | Rebuild(states: Snapshot, ok: bool)
    | Scan(paused: bool, dirs: seq<Option<Snapshot>>, changes: seq<Change>, recordOk: bool, applyOk: bool)

  /** All directories together, a later one over an earlier one. */
  function Collect(dirs: seq<Option<Snapshot>>): Snapshot {
    if dirs == [] then map[]
    else
      var front, last := Collect(dirs[..|dirs| - 1]), dirs[|dirs| - 1];
      if last.None? then front else front + last.value
  }

  ghost predicate Possible(s: State, step: Step) {
    match step
    case Rebuild(states, _) => Keyed(states)
    case Scan(_, dirs, changes, _, _) =>
      IsDiff(s.baseline, Collect(dirs), changes) && forall i :: 0 <= i < |dirs| && dirs[i].Some? ==> Keyed(dirs[i].value)
  }

  function Apply(s: State, step: Step): State {
    match step
    case Rebuild(states, ok) => if ok then State(states, s.events, Hashes(states), []) else s
    case Scan(paused, dirs, changes, recordOk, applyOk) =>
      if paused || s.baseline == map[] || changes == [] || !recordOk then s
      else
        var logged := s.(events := s.events + changes, since := s.since + changes);
        if applyOk then logged.(baseline := ApplyChanges(s.baseline, Collect(dirs), changes)) else logged
  }

  /** The log since the last rebuild tells the whole story of the baseline. */
  ghost predicate Told(s: State) {
    Replay(s.rebuilt, s.since) == Hashes(s.baseline) && Chained(s.rebuilt, s.since)
  }

  lemma {:induction false} CollectKeyed(dirs: seq<Option<Snapshot>>)
    requires forall i :: 0 <= i < |dirs| && dirs[i].Some? ==> Keyed(dirs[i].value)
    ensures Keyed(Collect(dirs))
  {
    if dirs != [] {
      CollectKeyed(dirs[..|dirs| - 1]);
    }
  }

  /** A step leaves the story told exactly unless changes were logged that could not be taken over. */
  lemma StepToldIff(s: State, step: Step)
    requires Told(s) && Possible(s, step)
    ensures Told(Apply(s, step)) <==>
            !(step.Scan? && !step.paused && s.baseline != map[] && step.changes != [] && step.recordOk && !step.applyOk)
  {
    match step
    case Rebuild(_, _) =>
    case Scan(paused, dirs, changes, recordOk, applyOk) =>
      var cur := Collect(dirs);
      CollectKeyed(dirs);
      ReplayConcat(s.rebuilt, s.since, changes);
      ReplayingDiffGivesScan(s.baseline, cur, changes);
      ApplyingDiffGivesScan(s.baseline, cur, changes);
      EmptyDiffIff(s.baseline, cur, changes);
  }

  ghost predicate Run(s: State, steps: seq<Step>, end: State)
    decreases |steps|
  {
    if steps == [] then end == s
    else
      Possible(s, steps[0]) && (steps[0].Scan? ==> steps[0].applyOk) && Run(Apply(s, steps[0]), steps[1..], end)
  }

  function Begin(baseline: Snapshot, events: seq<Change>): State {
    State(baseline, events, Hashes(baseline), [])
  }

  lemma {:induction false} RunTold(s: State, steps: seq<Step>, end: State)
    requires Told(s) && Run(s, steps, end)
    ensures Told(end)
    decreases |steps|
  {
    if steps != [] {
      StepToldIff(s, steps[0]);
      RunTold(Apply(s, steps[0]), steps[1..], end);
    }
  }

  /** Main theorem: over any run of rebuilds and scans whose changes could be taken over, replaying the events
      since the last rebuild gives the hashes of the baseline, and every event starts from what the one before
      left of its path. */
  lemma LogReplaysToBaseline(baseline: Snapshot, events: seq<Change>, steps: seq<Step>, end: State)
    requires Run(Begin(baseline, events), steps, end)
    ensures Replay(end.rebuilt, end.since) == Hashes(end.baseline) && Chained(end.rebuilt, end.since)
  {
    RunTold(Begin(baseline, events), steps, end);
  }

  // ---------- What the baseline is after a run ----------

  /** The last directory that could be scanned and has the path. */
  predicate LastWith(dirs: seq<Option<Snapshot>>, p: FilePath, i: nat) {
    i < |dirs| && dirs[i].Some? && p in dirs[i].value &&
    forall j :: i < j < |dirs| && dirs[j].Some? ==> p !in dirs[j].value
  }

  /** A scan holds the files of every directory that could be scanned, and no others. */
  lemma {:induction false} CollectIsAll(dirs: seq<Option<Snapshot>>, p: FilePath)
    ensures p in Collect(dirs) <==> exists i :: 0 <= i < |dirs| && dirs[i].Some? && p in dirs[i].value
    ensures forall i: nat :: LastWith(dirs, p, i) ==> p in Collect(dirs) && Collect(dirs)[p] == dirs[i].value[p]
  {
    if dirs != [] {
      var n := |dirs| - 1;
      CollectIsAll(dirs[..n], p);
      forall i: nat | LastWith(dirs, p, i)
        ensures p in Collect(dirs) && Collect(dirs)[p] == dirs[i].value[p]
      {
        assert i < n ==> LastWith(dirs[..n], p, i);
      }
      if i :| 0 <= i < n && dirs[..n][i].Some? && p in dirs[..n][i].value {
        assert dirs[i].Some? && p in dirs[i].value;
      }
    }
  }

  /** The hashes that were adopted last: by a rebuild that took effect, or by a scan that was not paused, had a baseline
      to compare with, and could write what it found. */
  function Adopted(h: HashMap, steps: seq<Step>): HashMap
    decreases |steps|
  {
    if steps == [] then h
    else Adopted(match steps[0]
                 case Rebuild(states, ok) => if ok then Hashes(states) else h
                 case Scan(paused, dirs, _, recordOk, applyOk) =>
                   if !paused && h != map[] && recordOk && applyOk then Hashes(Collect(dirs)) else h, steps[1..])
  }

  lemma StepAdopts(s: State, step: Step)
    requires Possible(s, step) && (step.Scan? ==> step.applyOk)
    ensures Hashes(Apply(s, step).baseline) == Adopted(Hashes(s.baseline), [step])
  {
    assert [step][1..] == [];
    match step
    case Rebuild(_, _) =>
    case Scan(paused, dirs, changes, recordOk, _) =>
      var cur := Collect(dirs);
      CollectKeyed(dirs);
      ApplyingDiffGivesScan(s.baseline, cur, changes);
      EmptyDiffIff(s.baseline, cur, changes);
      if s.baseline != map[] {
        var p :| p in s.baseline;
        assert p in Hashes(s.baseline);
      }
  }

  /** Main theorem: after any run of rebuilds and scans the baseline has exactly the paths and hashes adopted last. */
  lemma {:induction false} BaselineIsAdopted(s: State, steps: seq<Step>, end: State)
    requires Run(s, steps, end)
    ensures Hashes(end.baseline) == Adopted(Hashes(s.baseline), steps)
    decreases |steps|
  {
    if steps != [] {
      StepAdopts(s, steps[0]);
      assert [steps[0]][1..] == [];
      BaselineIsAdopted(Apply(s, steps[0]), steps[1..], end);
    }
  }

  // ---------- The store and the monitor as the program has them ----------

  class TamperStore {
    var baseline: Snapshot
    var events: seq<Change>

    constructor (baseline: Snapshot, events: seq<Change>)
      ensures this.baseline == baseline && this.events == events
    {
      this.baseline, this.events := baseline, events;
    }

    /** replaceBaseline: one transaction, the states in any order. */
    method ReplaceBaseline(states: Snapshot, ok: bool)
      requires Keyed(states)
      modifies this`baseline
      ensures baseline == if ok then states else old(baseline)
    {
      var table: Snapshot := map[];
      var todo := states.Keys;
      while todo != {}
        invariant todo <= states.Keys
        invariant table == map p | p in states && p !in todo :: states[p]
        decreases todo
      {
        var p :| p in todo;
        var st := states[p];
        table := table[st.path := st];
        todo := todo - {p};
      }
      if ok {
        baseline := table;
      }
    }

    /** applyChanges: one transaction. */
    method TakeOver(cur: Snapshot, changes: seq<Change>, ok: bool)
      modifies this`baseline
      ensures baseline == if ok then ApplyChanges(old(baseline), cur, changes) else old(baseline)
    {
      var table := baseline;
      for i := 0 to |changes|
        invariant table == ApplyChanges(old(baseline), cur, changes[..i])
      {
        assert changes[..i + 1][..i] == changes[..i];
        match changes[i].kind
        case Deleted => table := table - {changes[i].path};
        case _ =>
          var st := if changes[i].path in cur then cur[changes[i].path] else NOTHING;
          table := table[st.path := st];
      }
      assert changes[..|changes|] == changes;
      if ok {
        baseline := table;
      }
    }

    /** recordEvents: one transaction. */
    method RecordEvents(changes: seq<Change>, ok: bool) returns (recorded: bool)
      modifies this`events
      ensures recorded == (ok || changes == [])
      ensures events == if recorded then old(events) + changes else old(events)
    {
      recorded := true;
      if |changes| == 0 {
        return;
      }
      var table := events;
      for i := 0 to |changes|
        invariant table == old(events) + changes[..i]
      {
        table := table + [changes[i]];
      }
      assert changes[..|changes|] == changes;
      recorded := ok;
      if ok {
        events := table;
      }
    }

    /** scanOnce: does what one Scan step of the model does, for some order of the changes. */
    method ScanOnce(paused: bool, dirs: seq<Option<Snapshot>>, recordOk: bool, applyOk: bool)
      returns (ghost changes: seq<Change>)
      modifies this
      ensures IsDiff(old(baseline), Collect(dirs), changes)
      ensures var before := State(old(baseline), old(events), Hashes(old(baseline)), []);
              var after := Apply(before, Scan(paused, dirs, changes, recordOk, applyOk));
              baseline == after.baseline && events == after.events
    {
      var cur: Snapshot := map[];
      for i := 0 to |dirs|
        invariant cur == Collect(dirs[..i])
        invariant baseline == old(baseline) && events == old(events)
      {
        assert dirs[..i + 1][..i] == dirs[..i];
        if dirs[i].Some? {
          cur := cur + dirs[i].value;
        }
      }
      assert dirs[..|dirs|] == dirs;
      var found := Diff(baseline, cur);
      changes := found;
      if paused || |baseline| == 0 || |found| == 0 {
        return;
      }
      var recorded := RecordEvents(found, recordOk);
      if recorded {
        TakeOver(cur, found, applyOk);
      }
    }
  }
}
