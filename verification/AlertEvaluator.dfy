/** internal/modules/alert/{eval,evaluator}.go: from metric samples to notifications, with a minimum
    duration before a rule fires and a silence after each notification. Times are nanoseconds. */
module AlertEvaluator {
  import opened Text

  const SECOND: int := 1_000_000_000

  // ---------- Samples and rules ----------

  datatype Metric = Cpu | Memory | Disk | Load | DiskIO | OtherMetric
  datatype Comparator = GreaterThan | LessThan | OtherComparator

  datatype Sample = Sample(cpu: real, memory: real, disk: real, load1: real, diskIOBytes: nat, at: int)

  datatype Rule = Rule(id: int, metric: Metric, comparator: Comparator, threshold: real, durationSec: int)

  /** metricValue: the disk rate needs an earlier sample, and a counter that went back counts as 0. */
  function MetricValue(m: Metric, cur: Sample, prev: Option<Sample>): real {
    match m
    case Cpu => cur.cpu
    case Memory => cur.memory
    case Disk => cur.disk
    case Load => cur.load1
    case OtherMetric => 0.0
    case DiskIO =>
      if prev.None? || cur.at <= prev.value.at || cur.diskIOBytes < prev.value.diskIOBytes then 0.0
      else (cur.diskIOBytes - prev.value.diskIOBytes) as real / ((cur.at - prev.value.at) as real / SECOND as real)
  }

  predicate Firing(r: Rule, value: real) {
    match r.comparator
    case GreaterThan => value > r.threshold
    case LessThan => value < r.threshold
    case OtherComparator => false
  }

  // ---------- One rule, one evaluation ----------

  /** ruleState: since when the rule fires without a break, and when it was last notified. */
  datatype RuleState = RuleState(firingSince: Option<int>, lastNotify: Option<int>)

  const FRESH: RuleState := RuleState(None, None)

  /** What an evaluation sees of one rule. */
  datatype Check = Check(now: int, firing: bool, durationSec: int, silenceSec: int, sendOk: bool)

  /** What it does: whether it gets past the duration, tries to send, and has sent. */
  datatype Verdict = Verdict(overdue: bool, attempted: bool, notified: bool)

  function Evaluate(st: RuleState, c: Check): (RuleState, Verdict) {
    if !c.firing then (st.(firingSince := None), Verdict(false, false, false))
    else
      var since := if st.firingSince.None? then c.now else st.firingSince.value;
      var st1 := st.(firingSince := Some(since));
      if c.now - since < c.durationSec * SECOND then (st1, Verdict(false, false, false))
      else
        var silenced := st.lastNotify.Some? && c.now - st.lastNotify.value < c.silenceSec * SECOND;
        if !silenced && c.sendOk then (st1.(lastNotify := Some(c.now)), Verdict(true, true, true))
        else (st1, Verdict(true, !silenced, false))
  }

  // ---------- The history of one rule ----------

  /** Round by round: evaluated, or None while the rule is deleted or disabled. */
  type History = seq<Option<Check>>

  function StateAfter(h: History): RuleState {
    if h == [] || h[|h| - 1].None? then FRESH
    else Evaluate(StateAfter(h[..|h| - 1]), h[|h| - 1].value).0
  }

  /** What the evaluator does at round k. */
  function VerdictAt(h: History, k: nat): Verdict
    requires k < |h| && h[k].Some?
  {
    Evaluate(StateAfter(h[..k]), h[k].value).1
  }

  predicate ClockForward(h: History) {
    forall i, j :: 0 <= i < j < |h| && h[i].Some? && h[j].Some? ==> h[i].value.now <= h[j].value.now
  }

  /** The rule is enabled throughout the rounds j to k. */
  predicate EnabledFrom(h: History, j: nat, k: nat) {
    j <= k < |h| && forall i :: j <= i <= k ==> h[i].Some?
  }

  /** It fires in every one of them. */
  predicate Unbroken(h: History, j: nat, k: nat) {
    EnabledFrom(h, j, k) && forall i :: j <= i <= k ==> h[i].value.firing
  }

  /** An unbroken run of firing evaluations that ends at k began long enough ago. */
  predicate Overdue(h: History, k: nat) {
    exists j: nat | j <= k :: Unbroken(h, j, k) && h[k].value.now - h[j].value.now >= h[k].value.durationSec * SECOND
  }

  /** The specification, by the history alone: a send is attempted when the rule is overdue and no successful
      send since it was last enabled is younger than the silence. */
  predicate MustSend(h: History, k: nat)
    decreases k, 2
  {
    Overdue(h, k) && !Young(h, k)
  }

  /** A successful send since the rule was enabled is too young for another one at round k. */
  predicate Young(h: History, k: nat)
    requires k < |h| && h[k].Some?
    decreases k, 1
  {
    exists i: nat | i < k :: SentSince(h, i, k) && h[k].value.now - h[i].value.now < h[k].value.silenceSec * SECOND
  }

  predicate SentSince(h: History, i: nat, k: nat)
    requires i < k
    decreases k, 0
  {
    EnabledFrom(h, i, k) && MustSend(h, i) && h[i].value.sendOk
  }

  predicate Sent(h: History, i: nat) {
    i < |h| && h[i].Some? && MustSend(h, i) && h[i].value.sendOk
  }

  /** Round i sent successfully, and the rule has been enabled up to round n. */
  predicate SentUpTo(h: History, i: nat, n: nat) {
    EnabledFrom(h, i, n) && Sent(h, i)
  }

  /** What firingSince says about the history. */
  ghost predicate RunTells(h: History) {
    var since := StateAfter(h).firingSince;
    var n := |h|;
    (since.None? ==> n == 0 || h[n - 1].None? || !h[n - 1].value.firing) &&
    (since.Some? ==> n > 0 && RunStart(h, n - 1, since.value))
  }

  /** And what lastNotify says. */
  ghost predicate NotifyTells(h: History) {
    var last := StateAfter(h).lastNotify;
    if h == [] then last.None?
    else if last.None? then NoneSent(h, |h| - 1)
    else LastSent(h, |h| - 1, last.value)
  }

  ghost predicate StateTells(h: History) {
    RunTells(h) && NotifyTells(h)
  }

  /** No send has succeeded since the rule was enabled, seen from round n. */
  ghost predicate NoneSent(h: History, n: nat) {
    forall i: nat :: !SentUpTo(h, i, n)
  }

  /** `t` is when the longest unbroken run that ends at k began. */
  ghost predicate RunStart(h: History, k: nat, t: int) {
    (exists j: nat :: Unbroken(h, j, k) && h[j].value.now == t) &&
    forall j: nat :: Unbroken(h, j, k) ==> t <= h[j].value.now
  }

  /** `t` is the time of the last one that has. */
  ghost predicate LastSent(h: History, n: nat, t: int) {
    (exists i: nat :: SentUpTo(h, i, n) && h[i].value.now == t) &&
    forall i: nat :: SentUpTo(h, i, n) ==> h[i].value.now <= t
  }

  // Facts about a round do not change as rounds are added.

  lemma {:induction false} PrefixSame(h: History, n: nat, k: nat)
    requires k < n <= |h|
    ensures forall j: nat :: Unbroken(h, j, k) <==> Unbroken(h[..n], j, k)
    ensures Overdue(h, k) <==> Overdue(h[..n], k)
    ensures MustSend(h, k) <==> MustSend(h[..n], k)
    ensures Sent(h, k) <==> Sent(h[..n], k)
    decreases k
  {
    forall i: nat | i < k
      ensures SentSince(h, i, k) <==> SentSince(h[..n], i, k)
    {
      PrefixSame(h, n, i);
    }
    if h[k].Some? {
      assert Young(h, k) <==> Young(h[..n], k);
    }
  }

  /** One more evaluation: the state after it is overdue and silent exactly as the history has it. */
  lemma NewVerdict(h: History)
    requires h != [] && h[|h| - 1].Some? && ClockForward(h) && StateTells(h[..|h| - 1])
    ensures var n := |h| - 1;
            VerdictAt(h, n).overdue == Overdue(h, n) && VerdictAt(h, n).attempted == MustSend(h, n) &&
            VerdictAt(h, n).notified == Sent(h, n)
  {
    var n := |h| - 1;
    var front, c := h[..n], h[n].value;
    var st := StateAfter(front);
    NewOverdue(h);
    NewSilence(h);
  }

  /** Since when the rule fires, the new evaluation included. */
  function Since(st: RuleState, now: int): int {
    if st.firingSince.None? then now else st.firingSince.value
  }

  lemma UnbrokenGrows(h: History, j: nat)
    requires |h| > 1 && h[|h| - 1].Some? && h[|h| - 1].value.firing && j < |h| - 1
    ensures Unbroken(h, j, |h| - 1) <==> Unbroken(h[..|h| - 1], j, |h| - 2)
  {
    var n := |h| - 1;
    PrefixSame(h, n, n - 1);
    assert Unbroken(h, j, n) <==> Unbroken(h, j, n - 1);
  }

  lemma RunGoesOn(h: History, t: int)
    requires |h| > 1 && h[|h| - 1].Some? && ClockForward(h) && h[|h| - 1].value.firing
    requires RunStart(h[..|h| - 1], |h| - 2, t)
    ensures RunStart(h, |h| - 1, t)
  {
    var n := |h| - 1;
    var front := h[..n];
    var j: nat :| Unbroken(front, j, n - 1) && front[j].value.now == t;
    UnbrokenGrows(h, j);
    assert Unbroken(h, j, n) && h[j].value.now == t;
    forall i: nat | Unbroken(h, i, n)
      ensures t <= h[i].value.now
    {
      if i < n {
        UnbrokenGrows(h, i);
        assert front[i] == h[i];
      }
    }
  }

  lemma RunBegins(h: History)
    requires h != [] && h[|h| - 1].Some? && h[|h| - 1].value.firing
    requires |h| > 1 ==> h[|h| - 2].None? || !h[|h| - 2].value.firing
    ensures RunStart(h, |h| - 1, h[|h| - 1].value.now)
  {
    var n := |h| - 1;
    assert Unbroken(h, n, n);
    assert n > 0 ==> h[n - 1].None? || !h[n - 1].value.firing;
    assert forall i: nat :: Unbroken(h, i, n) ==> i == n;
  }

  lemma NewRunStart(h: History)
    requires h != [] && h[|h| - 1].Some? && ClockForward(h) && StateTells(h[..|h| - 1]) && h[|h| - 1].value.firing
    ensures RunStart(h, |h| - 1, Since(StateAfter(h[..|h| - 1]), h[|h| - 1].value.now))
  {
    var st := StateAfter(h[..|h| - 1]);
    if st.firingSince.Some? {
      RunGoesOn(h, st.firingSince.value);
    } else {
      RunBegins(h);
    }
  }

  lemma NewOverdue(h: History)
    requires h != [] && h[|h| - 1].Some? && ClockForward(h) && StateTells(h[..|h| - 1])
    ensures VerdictAt(h, |h| - 1).overdue == Overdue(h, |h| - 1)
  {
    var n := |h| - 1;
    if h[n].value.firing {
      NewRunStart(h);
    }
  }

  lemma EnabledGrows(h: History, i: nat, n: nat, m: nat)
    requires n == |h| - 1 && m == n - 1 && i < n && h[n].Some?
    ensures EnabledFrom(h, i, n) <==> EnabledFrom(h[..n], i, m)
  {
    assert forall k :: 0 <= k < n ==> h[..n][k] == h[k];
    if EnabledFrom(h[..n], i, m) {
      forall k | i <= k <= n
        ensures h[k].Some?
      {
        assert k <= m ==> h[..n][k].Some?;
      }
    }
    if EnabledFrom(h, i, n) {
      assert forall k :: i <= k <= m ==> h[k].Some?;
    }
  }

  lemma SentUpToSame(h: History, i: nat, n: nat, m: nat)
    requires n == |h| - 1 && m == n - 1 && i < n && h[n].Some?
    ensures SentUpTo(h, i, n) <==> SentUpTo(h[..n], i, m)
    ensures SentSince(h, i, n) <==> SentUpTo(h[..n], i, m)
    ensures h[..n][i] == h[i]
  {
    EnabledGrows(h, i, n, m);
    PrefixSame(h, n, i);
  }

  lemma NoneIsYoung(h: History, n: nat, m: nat)
    requires n == |h| - 1 && m == n - 1 && h[n].Some? && NoneSent(h[..n], m)
    ensures !Young(h, n)
  {
    forall i: nat | i < n
      ensures !SentSince(h, i, n)
    {
      SentUpToSame(h, i, n, m);
    }
  }

  lemma LastIsYoungest(h: History, n: nat, m: nat, last: int)
    requires n == |h| - 1 && m == n - 1 && h[n].Some? && LastSent(h[..n], m, last)
    ensures Young(h, n) <==> h[n].value.now - last < h[n].value.silenceSec * SECOND
  {
    var front := h[..n];
    var k: nat :| SentUpTo(front, k, m) && front[k].value.now == last;
    SentUpToSame(h, k, n, m);
    assert SentSince(h, k, n) && h[k].value.now == last;
    forall i: nat | i < n && SentSince(h, i, n)
      ensures h[i].value.now <= last
    {
      SentUpToSame(h, i, n, m);
    }
  }

  /** What the silence of the new evaluation goes by, from the state and from the history. */
  lemma NewSilence(h: History)
    requires h != [] && h[|h| - 1].Some? && NotifyTells(h[..|h| - 1])
    ensures var n := |h| - 1;
            var last := StateAfter(h[..n]).lastNotify;
            (last.Some? && h[n].value.now - last.value < h[n].value.silenceSec * SECOND) <==> Young(h, n)
  {
    var n := |h| - 1;
    var last := StateAfter(h[..n]).lastNotify;
    if n > 0 {
      if last.Some? {
        LastIsYoungest(h, n, n - 1, last.value);
      } else {
        NoneIsYoung(h, n, n - 1);
      }
    }
  }

  lemma NotifiedIsLast(h: History, n: nat)
    requires n == |h| - 1 && h[n].Some? && ClockForward(h) && Sent(h, n)
    ensures LastSent(h, n, h[n].value.now)
  {
    assert SentUpTo(h, n, n);
  }

  lemma QuietKeepsNone(h: History, n: nat, m: nat)
    requires n == |h| - 1 && m == n - 1 && h[n].Some? && !Sent(h, n) && NoneSent(h[..n], m)
    ensures NoneSent(h, n)
  {
    forall i: nat
      ensures !SentUpTo(h, i, n)
    {
      if i < n {
        SentUpToSame(h, i, n, m);
      }
    }
  }

  lemma EarlierSend(h: History, n: nat, m: nat, k: nat)
    requires n == |h| - 1 && m == n - 1 && h[n].Some? && !Sent(h, n) && SentUpTo(h, k, n)
    ensures SentUpTo(h[..n], k, m) && h[..n][k] == h[k]
  {
    SentUpToSame(h, k, n, m);
  }

  lemma QuietKeepsSome(h: History, n: nat, m: nat, last: int)
    requires n == |h| - 1 && m == n - 1 && h[n].Some? && !Sent(h, n) && LastSent(h[..n], m, last)
    ensures LastSent(h, n, last)
  {
    assert exists i: nat :: SentUpTo(h, i, n) && h[i].value.now == last by {
      var i: nat :| SentUpTo(h[..n], i, m) && h[..n][i].value.now == last;
      SentUpToSame(h, i, n, m);
      assert SentUpTo(h, i, n);
    }
    forall k: nat | SentUpTo(h, k, n)
      ensures h[k].value.now <= last
    {
      EarlierSend(h, n, m, k);
    }
  }

  lemma LastNotifyStep(h: History)
    requires h != [] && h[|h| - 1].Some?
    ensures StateAfter(h).lastNotify ==
            if VerdictAt(h, |h| - 1).notified then Some(h[|h| - 1].value.now) else StateAfter(h[..|h| - 1]).lastNotify
  {
  }

  lemma QuietKeeps(h: History)
    requires h != [] && h[|h| - 1].Some? && !Sent(h, |h| - 1) && NotifyTells(h[..|h| - 1])
    requires StateAfter(h).lastNotify == StateAfter(h[..|h| - 1]).lastNotify
    ensures NotifyTells(h)
  {
    var n := |h| - 1;
    var last := StateAfter(h[..n]).lastNotify;
    if n > 0 {
      if last.Some? {
        QuietKeepsSome(h, n, n - 1, last.value);
      } else {
        QuietKeepsNone(h, n, n - 1);
      }
    }
  }

  lemma NewLastSent(h: History)
    requires h != [] && h[|h| - 1].Some? && ClockForward(h) && StateTells(h[..|h| - 1])
    ensures NotifyTells(h)
  {
    NewVerdict(h);
    LastNotifyStep(h);
    if Sent(h, |h| - 1) {
      NotifiedIsLast(h, |h| - 1);
    } else {
      QuietKeeps(h);
    }
  }

  lemma NewFiringSince(h: History)
    requires h != [] && h[|h| - 1].Some? && ClockForward(h) && StateTells(h[..|h| - 1])
    ensures RunTells(h)
  {
    if h[|h| - 1].value.firing {
      NewRunStart(h);
    }
  }

  lemma {:induction false} StateAlwaysTells(h: History)
    requires ClockForward(h)
    ensures StateTells(h)
  {
    if h != [] && h[|h| - 1].Some? {
      StateAlwaysTells(h[..|h| - 1]);
      NewLastSent(h);
      NewFiringSince(h);
    }
  }

  /** What the history demands at round k. */
  function Demanded(h: History, k: nat): Verdict
    requires k < |h| && h[k].Some?
  {
    Verdict(Overdue(h, k), MustSend(h, k), Sent(h, k))
  }

  /** Main theorem on one rule: at every round the evaluator does what the history specification says. */
  lemma EvaluatorRefinesHistory(h: History, k: nat)
    requires ClockForward(h) && k < |h| && h[k].Some?
    ensures VerdictAt(h, k) == Demanded(h, k)
  {
    VerdictPrefix(h, k);
    VerdictIsLast(h[..k + 1], k);
  }

  lemma VerdictPrefix(h: History, k: nat)
    requires k < |h| && h[k].Some?
    ensures VerdictAt(h[..k + 1], k) == VerdictAt(h, k) && Demanded(h[..k + 1], k) == Demanded(h, k)
  {
    PrefixSame(h, k + 1, k);
    assert h[..k + 1][..k] == h[..k];
  }

  lemma VerdictIsLast(h: History, n: nat)
    requires n == |h| - 1 && h[n].Some? && ClockForward(h)
    ensures VerdictAt(h, n) == Demanded(h, n)
  {
    StateAlwaysTells(h[..n]);
    NewVerdict(h);
  }

  /** Two successful sends of a rule that stays enabled are at least the silence apart. */
  lemma SendsAreApart(h: History, i: nat, k: nat)
    requires ClockForward(h) && i < k && EnabledFrom(h, i, k)
    requires VerdictAt(h, i).notified && VerdictAt(h, k).attempted
    ensures h[k].value.now - h[i].value.now >= h[k].value.silenceSec * SECOND
  {
    EvaluatorRefinesHistory(h, i);
    EvaluatorRefinesHistory(h, k);
    assert SentSince(h, i, k);
    assert !Young(h, k);
  }

  // ---------- All rules ----------

  /** A round of the monitor; `rules` is None when the table of enabled rules could not be read. `sendOk` and
      `recordOk` tell for which rules a notification and a history row go through. */
  datatype Round = Round(now: int, cur: Sample, rules: Option<seq<Rule>>, silenceSec: int,
                         sendOk: int -> bool, recordOk: int -> bool)

  predicate DistinctIds(rules: seq<Rule>) {
    forall i, j :: 0 <= i < j < |rules| ==> rules[i].id != rules[j].id
  }

  function CheckOf(r: Rule, round: Round, prev: Option<Sample>): Check {
    Check(round.now, Firing(r, MetricValue(r.metric, round.cur, prev)), r.durationSec, round.silenceSec, round.sendOk(r.id))
  }

  type States = map<int, RuleState>

  function StateOf(states: States, id: int): RuleState {
    if id in states then states[id] else FRESH
  }

  function Live(rules: seq<Rule>): set<int> {
    set i | 0 <= i < |rules| :: rules[i].id
  }

  /** The states after the first rules of a round, before those of other rules are dropped. */
  function EvaluatedUpTo(states: States, rules: seq<Rule>, round: Round, prev: Option<Sample>): States {
    if rules == [] then states
    else
      var r := rules[|rules| - 1];
      var before := EvaluatedUpTo(states, rules[..|rules| - 1], round, prev);
      before[r.id := Evaluate(StateOf(before, r.id), CheckOf(r, round, prev)).0]
  }

  datatype Row = Row(ruleId: int, value: real, notified: bool, silenced: bool)

  /** What the round does for the last of these rules. */
  function LastVerdict(states: States, rules: seq<Rule>, round: Round, prev: Option<Sample>): Verdict
    requires rules != []
  {
    var r := rules[|rules| - 1];
    Evaluate(StateOf(EvaluatedUpTo(states, rules[..|rules| - 1], round, prev), r.id), CheckOf(r, round, prev)).1
  }

  function RowOf(r: Rule, round: Round, prev: Option<Sample>, v: Verdict): Row {
    Row(r.id, MetricValue(r.metric, round.cur, prev), v.notified, !v.attempted)
  }

  /** The history rows of the round. */
  function RowsUpTo(states: States, rules: seq<Rule>, round: Round, prev: Option<Sample>): seq<Row> {
    if rules == [] then []
    else
      var r, v := rules[|rules| - 1], LastVerdict(states, rules, round, prev);
      RowsUpTo(states, rules[..|rules| - 1], round, prev) +
      if v.overdue && round.recordOk(r.id) then [RowOf(r, round, prev, v)] else []
  }

  /** The rules for which it tries to send. */
  function SendsUpTo(states: States, rules: seq<Rule>, round: Round, prev: Option<Sample>): seq<int> {
    if rules == [] then []
    else
      SendsUpTo(states, rules[..|rules| - 1], round, prev) +
      if LastVerdict(states, rules, round, prev).attempted then [rules[|rules| - 1].id] else []
  }

  /** And how many sends succeed. */
  function NotifiedUpTo(states: States, rules: seq<Rule>, round: Round, prev: Option<Sample>): nat {
    if rules == [] then 0
    else
      NotifiedUpTo(states, rules[..|rules| - 1], round, prev) +
      if LastVerdict(states, rules, round, prev).notified then 1 else 0
  }

  /** How many of these sends go through. */
  function GoThrough(ids: seq<int>, sendOk: int -> bool): nat {
    if ids == [] then 0 else GoThrough(ids[..|ids| - 1], sendOk) + if sendOk(ids[|ids| - 1]) then 1 else 0
  }

  lemma OneMoreSend(ids: seq<int>, id: int, sendOk: int -> bool)
    ensures GoThrough(ids + [id], sendOk) == GoThrough(ids, sendOk) + if sendOk(id) then 1 else 0
    ensures GoThrough(ids + [], sendOk) == GoThrough(ids, sendOk)
  {
    assert (ids + [id])[..|ids|] == ids && ids + [] == ids;
  }

  lemma LastIsNotified(states: States, rules: seq<Rule>, round: Round, prev: Option<Sample>)
    requires rules != []
    ensures var v := LastVerdict(states, rules, round, prev);
            v.notified == (v.attempted && round.sendOk(rules[|rules| - 1].id))
  {
  }

  /** The number that a round returns is that of the sends tried that went through. */
  lemma {:induction false} NotifiedGoThrough(states: States, rules: seq<Rule>, round: Round, prev: Option<Sample>)
    ensures NotifiedUpTo(states, rules, round, prev) == GoThrough(SendsUpTo(states, rules, round, prev), round.sendOk)
  {
    if rules != [] {
      var front, id := rules[..|rules| - 1], rules[|rules| - 1].id;
      NotifiedGoThrough(states, front, round, prev);
      OneMoreSend(SendsUpTo(states, front, round, prev), id, round.sendOk);
      LastIsNotified(states, rules, round, prev);
    }
  }

  function NextStates(states: States, round: Round, prev: Option<Sample>): States {
    if round.rules.None? then states
    else
      var all := EvaluatedUpTo(states, round.rules.value, round, prev);
      map id | id in all && id in Live(round.rules.value) :: all[id]
  }

  /** Each rule is evaluated on its own state alone. */
  lemma {:induction false} RuleByRule(states: States, rules: seq<Rule>, round: Round, prev: Option<Sample>, id: int)
    requires DistinctIds(rules)
    ensures var all := EvaluatedUpTo(states, rules, round, prev);
            (id !in Live(rules) ==> StateOf(all, id) == StateOf(states, id)) &&
            forall i :: 0 <= i < |rules| && rules[i].id == id ==>
                          id in all && all[id] == Evaluate(StateOf(states, id), CheckOf(rules[i], round, prev)).0
  {
    if rules != [] {
      var n := |rules| - 1;
      assert rules[n].id in Live(rules);
      assert forall i :: 0 <= i < n ==> rules[..n][i] == rules[i] && rules[i].id in Live(rules);
      RuleByRule(states, rules[..n], round, prev, id);
      if rules[n].id == id {
        assert id !in Live(rules[..n]);
      }
    }
  }

  ghost predicate Run(rounds: seq<Round>) {
    (forall i :: 0 <= i < |rounds| && rounds[i].rules.Some? ==> DistinctIds(rounds[i].rules.value)) &&
    forall i, j :: 0 <= i < j < |rounds| ==> rounds[i].now <= rounds[j].now
  }

  function PrevSample(rounds: seq<Round>): Option<Sample> {
    if rounds == [] then None else Some(rounds[|rounds| - 1].cur)
  }

  function StatesAfter(rounds: seq<Round>): States {
    if rounds == [] then map[]
    else
      var front := rounds[..|rounds| - 1];
      NextStates(StatesAfter(front), rounds[|rounds| - 1], PrevSample(front))
  }

  function RuleIn(rules: seq<Rule>, id: int): Option<Rule> {
    if rules == [] then None
    else if rules[|rules| - 1].id == id then Some(rules[|rules| - 1])
    else RuleIn(rules[..|rules| - 1], id)
  }

  /** The history of one rule in a run; a round without rules leaves no trace. */
  function HistoryOf(rounds: seq<Round>, id: int): History {
    if rounds == [] then []
    else
      var front, round := rounds[..|rounds| - 1], rounds[|rounds| - 1];
      if round.rules.None? then HistoryOf(front, id)
      else
        var r := RuleIn(round.rules.value, id);
        HistoryOf(front, id) + [if r.None? then None else Some(CheckOf(r.value, round, PrevSample(front)))]
  }

  lemma {:induction false} RuleInLive(rules: seq<Rule>, id: int)
    ensures RuleIn(rules, id).None? <==> id !in Live(rules)
    ensures RuleIn(rules, id).Some? ==>
              exists i :: 0 <= i < |rules| && rules[i] == RuleIn(rules, id).value && rules[i].id == id
  {
    if rules != [] {
      var n := |rules| - 1;
      RuleInLive(rules[..n], id);
      assert forall i :: 0 <= i < n ==> rules[..n][i] == rules[i];
      assert rules[n].id in Live(rules);
      assert forall i :: 0 <= i < |rules| && i != n ==> rules[i].id in Live(rules[..n]) by {
        forall i | 0 <= i < n ensures rules[i].id in Live(rules[..n]) { assert rules[..n][i].id in Live(rules[..n]); }
      }
      if RuleIn(rules, id).Some? && rules[n].id != id {
        var i :| 0 <= i < n && rules[..n][i] == RuleIn(rules[..n], id).value && rules[..n][i].id == id;
        assert rules[i] == RuleIn(rules, id).value;
      }
    }
  }

  /** The evaluator keeps for every rule exactly the state of that rule's own history, and none for a rule
      that is not enabled. */
  lemma {:induction false} StatesAreHistories(rounds: seq<Round>, id: int)
    requires Run(rounds)
    ensures StateOf(StatesAfter(rounds), id) == StateAfter(HistoryOf(rounds, id))
  {
    if rounds != [] {
      var n := |rounds| - 1;
      var front, round := rounds[..n], rounds[n];
      StatesAreHistories(front, id);
      if round.rules.Some? {
        var rules := round.rules.value;
        RuleByRule(StatesAfter(front), rules, round, PrevSample(front), id);
        RuleInLive(rules, id);
        var h := HistoryOf(rounds, id);
        assert h[..|h| - 1] == HistoryOf(front, id);
      }
    }
  }

  // ---------- What a run sends and records ----------

  function RowsFor(rows: seq<Row>, id: int): seq<Row> {
    if rows == [] then []
    else RowsFor(rows[..|rows| - 1], id) + if rows[|rows| - 1].ruleId == id then [rows[|rows| - 1]] else []
  }

  lemma RowsForAdded(rows: seq<Row>, added: seq<Row>, id: int)
    requires |added| <= 1
    ensures RowsFor(rows + added, id) == RowsFor(rows, id) + if added != [] && added[0].ruleId == id then added else []
  {
    if added == [] {
      assert rows + added == rows;
    } else {
      assert (rows + added)[..|rows|] == rows && added == [added[0]];
    }
  }

  lemma RuleInFront(rules: seq<Rule>, id: int)
    requires DistinctIds(rules) && rules != []
    ensures rules[|rules| - 1].id == id ==> id !in Live(rules[..|rules| - 1])
  {
    assert forall i :: 0 <= i < |rules| - 1 ==> rules[..|rules| - 1][i] == rules[i];
  }

  /** In a round the rule has the one row, and the one send, of its own evaluation. */
  lemma {:induction false} RoundOfRule(states: States, rules: seq<Rule>, round: Round, prev: Option<Sample>, id: int)
    requires DistinctIds(rules)
    ensures var rows, r := RowsFor(RowsUpTo(states, rules, round, prev), id), RuleIn(rules, id);
            if r.None? then rows == [] && id !in SendsUpTo(states, rules, round, prev)
            else
              var v := Evaluate(StateOf(states, id), CheckOf(r.value, round, prev)).1;
              rows == (if v.overdue && round.recordOk(id) then [RowOf(r.value, round, prev, v)] else []) &&
              (id in SendsUpTo(states, rules, round, prev) <==> v.attempted)
  {
    if rules != [] {
      var n := |rules| - 1;
      var front, last := rules[..n], rules[n];
      var v := LastVerdict(states, rules, round, prev);
      RoundOfRule(states, front, round, prev, id);
      RowsForAdded(RowsUpTo(states, front, round, prev),
                   if v.overdue && round.recordOk(last.id) then [RowOf(last, round, prev, v)] else [], id);
      if last.id == id {
        RuleInFront(rules, id);
        RuleByRule(states, front, round, prev, id);
        RuleInLive(front, id);
      }
    }
  }

  lemma {:induction false} HistoryClock(rounds: seq<Round>, id: int)
    requires Run(rounds)
    ensures var h := HistoryOf(rounds, id);
            ClockForward(h) &&
            forall i :: 0 <= i < |h| && h[i].Some? ==> rounds != [] && h[i].value.now <= rounds[|rounds| - 1].now
  {
    if rounds != [] {
      var n := |rounds| - 1;
      HistoryClock(rounds[..n], id);
    }
  }

  /** The last round of the run reads its rules, and this one is enabled. */
  ghost predicate EnabledNow(rounds: seq<Round>, id: int) {
    rounds != [] && rounds[|rounds| - 1].rules.Some? && id in Live(rounds[|rounds| - 1].rules.value)
  }

  /** What the evaluator does for the rule in the last round. */
  function VerdictNow(rounds: seq<Round>, id: int): Verdict
    requires EnabledNow(rounds, id)
  {
    var front, round := rounds[..|rounds| - 1], rounds[|rounds| - 1];
    RuleInLive(round.rules.value, id);
    Evaluate(StateOf(StatesAfter(front), id), CheckOf(RuleIn(round.rules.value, id).value, round, PrevSample(front))).1
  }

  lemma VerdictIsOfHistory(rounds: seq<Round>, id: int)
    requires Run(rounds) && EnabledNow(rounds, id)
    ensures var h := HistoryOf(rounds, id);
            h != [] && h[|h| - 1].Some? && VerdictNow(rounds, id) == VerdictAt(h, |h| - 1) &&
            h[|h| - 1].value.now == rounds[|rounds| - 1].now &&
            h[|h| - 1].value.silenceSec == rounds[|rounds| - 1].silenceSec &&
            h[|h| - 1].value.sendOk == rounds[|rounds| - 1].sendOk(id)
  {
    var front, round := rounds[..|rounds| - 1], rounds[|rounds| - 1];
    var h := HistoryOf(rounds, id);
    RuleInLive(round.rules.value, id);
    StatesAreHistories(front, id);
    assert h[..|h| - 1] == HistoryOf(front, id);
  }

  /** Main theorem on runs: in the last round of any run, and so in every round, a send is tried for an enabled rule
      if and only if its history demands it; there is one history row if the rule is overdue and the row can be
      written, and none otherwise; and the row says whether a send succeeded and whether none was tried. */
  lemma RunRefinesHistory(rounds: seq<Round>, id: int)
    requires Run(rounds) && EnabledNow(rounds, id)
    ensures var front, round := rounds[..|rounds| - 1], rounds[|rounds| - 1];
            var h := HistoryOf(rounds, id);
            var k := |h| - 1;
            var r := RuleIn(round.rules.value, id);
            h != [] && r.Some? &&
            (id in SendsUpTo(StatesAfter(front), round.rules.value, round, PrevSample(front)) <==> MustSend(h, k)) &&
            RowsFor(RowsUpTo(StatesAfter(front), round.rules.value, round, PrevSample(front)), id) ==
            if Overdue(h, k) && round.recordOk(id) then
              [Row(id, MetricValue(r.value.metric, round.cur, PrevSample(front)),
                   MustSend(h, k) && round.sendOk(id), !MustSend(h, k))]
            else []
  {
    var front, round := rounds[..|rounds| - 1], rounds[|rounds| - 1];
    RuleInLive(round.rules.value, id);
    RoundOfRule(StatesAfter(front), round.rules.value, round, PrevSample(front), id);
    VerdictIsOfHistory(rounds, id);
    HistoryClock(rounds, id);
    EvaluatorRefinesHistory(HistoryOf(rounds, id), |HistoryOf(rounds, id)| - 1);
  }

  /** The history of a run's beginning is the beginning of the run's history. */
  lemma {:induction false} HistoryPrefix(rounds: seq<Round>, i: nat, id: int)
    requires i <= |rounds|
    ensures |HistoryOf(rounds[..i], id)| <= |HistoryOf(rounds, id)|
    ensures HistoryOf(rounds[..i], id) == HistoryOf(rounds, id)[..|HistoryOf(rounds[..i], id)|]
  {
    if i == |rounds| {
      assert rounds[..i] == rounds;
    } else {
      var n := |rounds| - 1;
      HistoryPrefix(rounds[..n], i, id);
      assert rounds[..n][..i] == rounds[..i];
    }
  }

  /** As long as every round that reads its rules has the rule, its history has no gap. */
  lemma {:induction false} HistoryUnbroken(rounds: seq<Round>, i: nat, id: int)
    requires i < |rounds| && EnabledNow(rounds[..i + 1], id)
    requires forall m :: i <= m < |rounds| && rounds[m].rules.Some? ==> id in Live(rounds[m].rules.value)
    ensures var k, h := |HistoryOf(rounds[..i + 1], id)|, HistoryOf(rounds, id);
            0 < k <= |h| && forall m :: k - 1 <= m < |h| ==> h[m].Some?
    decreases |rounds|
  {
    var n := |rounds| - 1;
    if rounds[n].rules.Some? {
      RuleInLive(rounds[n].rules.value, id);
    }
    if i == n {
      assert rounds[..i + 1] == rounds;
    } else {
      assert rounds[..n][..i + 1] == rounds[..i + 1];
      HistoryUnbroken(rounds[..n], i, id);
    }
  }

  /** Over runs: a send that succeeded in round i and one tried in the last round, with the rule enabled all the
      time, are at least the silence apart. */
  lemma RunSendsAreApart(rounds: seq<Round>, i: nat, id: int)
    requires Run(rounds) && i < |rounds| - 1 && EnabledNow(rounds, id) && EnabledNow(rounds[..i + 1], id)
    requires forall m :: i <= m < |rounds| && rounds[m].rules.Some? ==> id in Live(rounds[m].rules.value)
    requires VerdictNow(rounds[..i + 1], id).notified && VerdictNow(rounds, id).attempted
    ensures rounds[|rounds| - 1].now - rounds[i].now >= rounds[|rounds| - 1].silenceSec * SECOND
  {
    var early := rounds[..i + 1];
    var h, g := HistoryOf(rounds, id), HistoryOf(early, id);
    assert Run(early);
    VerdictIsOfHistory(rounds, id);
    VerdictIsOfHistory(early, id);
    assert ClockForward(h) by {
      HistoryClock(rounds, id);
    }
    assert g == h[..|g|] && |g| < |h| by {
      HistoryPrefix(rounds, i + 1, id);
      EarlierThanLast(rounds, i, id);
    }
    assert EnabledFrom(h, |g| - 1, |h| - 1) by {
      HistoryUnbroken(rounds, i, id);
    }
    PrefixSendsAreApart(h, g);
  }

  lemma PrefixSendsAreApart(h: History, g: History)
    requires ClockForward(h) && 0 < |g| < |h| && g == h[..|g|] && EnabledFrom(h, |g| - 1, |h| - 1)
    requires VerdictAt(g, |g| - 1).notified && VerdictAt(h, |h| - 1).attempted
    ensures h[|h| - 1].value.now - g[|g| - 1].value.now >= h[|h| - 1].value.silenceSec * SECOND
  {
    assert g[..|g| - 1] == h[..|g| - 1];
    SendsAreApart(h, |g| - 1, |h| - 1);
  }

  lemma EarlierThanLast(rounds: seq<Round>, i: nat, id: int)
    requires i < |rounds| - 1 && EnabledNow(rounds, id)
    ensures |HistoryOf(rounds[..i + 1], id)| < |HistoryOf(rounds, id)|
  {
    var n := |rounds| - 1;
    HistoryPrefix(rounds[..n], i + 1, id);
    assert rounds[..n][..i + 1] == rounds[..i + 1];
  }

  // ---------- The evaluator as the program has it ----------

  /** `sends` are the rules for which a notification was tried, as the channels see it. */
  class Evaluator {
    var states: States
    var prev: Option<Sample>
    var history: seq<Row>
    var sends: seq<int>

    constructor ()
      ensures states == map[] && prev == None && history == [] && sends == []
    {
      states, prev, history, sends := map[], None, [], [];
    }

    /** The body of the loop over the rules. */
    method EvaluateRule(r: Rule, round: Round) returns (sent: bool)
      modifies this`states, this`history, this`sends
      ensures var (next, v) := Evaluate(StateOf(old(states), r.id), CheckOf(r, round, prev));
              states == old(states)[r.id := next] && sent == v.notified &&
              sends == old(sends) + (if v.attempted then [r.id] else []) &&
              history == old(history) + if v.overdue && round.recordOk(r.id) then [RowOf(r, round, prev, v)] else []
    {
      var st := StateOf(states, r.id);
      states := states[r.id := st];
      var value := MetricValue(r.metric, round.cur, prev);
      if !Firing(r, value) {
        states := states[r.id := st.(firingSince := None)];
        return false;
      }
      if st.firingSince.None? {
        st := st.(firingSince := Some(round.now));
        states := states[r.id := st];
      }
      if round.now - st.firingSince.value < r.durationSec * SECOND {
        return false;
      }
      var silenced := st.lastNotify.Some? && round.now - st.lastNotify.value < round.silenceSec * SECOND;
      sent := false;
      if !silenced {
        sends := sends + [r.id];
        if round.sendOk(r.id) {
          sent := true;
          st := st.(lastNotify := Some(round.now));
          states := states[r.id := st];
        }
      }
      if round.recordOk(r.id) {
        history := history + [Row(r.id, value, sent, silenced)];
      }
    }

    /** evaluateSample and the bookkeeping of evaluateOnce. */
    method EvaluateRound(round: Round) returns (sent: nat)
      modifies this
      ensures states == NextStates(old(states), round, old(prev)) && prev == Some(round.cur)
      ensures round.rules.None? ==> sent == 0 && history == old(history) && sends == old(sends)
      ensures round.rules.Some? ==>
                history == old(history) + RowsUpTo(old(states), round.rules.value, round, old(prev)) &&
                sends == old(sends) + SendsUpTo(old(states), round.rules.value, round, old(prev)) &&
                sent == NotifiedUpTo(old(states), round.rules.value, round, old(prev))
    {
      sent := 0;
      if round.rules.Some? {
        var rules := round.rules.value;
        for i := 0 to |rules|
          invariant prev == old(prev)
          invariant states == EvaluatedUpTo(old(states), rules[..i], round, prev)
          invariant history == old(history) + RowsUpTo(old(states), rules[..i], round, prev)
          invariant sends == old(sends) + SendsUpTo(old(states), rules[..i], round, prev)
          invariant sent == NotifiedUpTo(old(states), rules[..i], round, prev)
        {
          assert rules[..i + 1][..i] == rules[..i];
          ghost var v := LastVerdict(old(states), rules[..i + 1], round, prev);
          var ok := EvaluateRule(rules[i], round);
          if ok { sent := sent + 1; }
          ConcatAssoc(old(history), RowsUpTo(old(states), rules[..i], round, prev),
                      if v.overdue && round.recordOk(rules[i].id) then [RowOf(rules[i], round, prev, v)] else []);
          ConcatAssoc(old(sends), SendsUpTo(old(states), rules[..i], round, prev),
                      if v.attempted then [rules[i].id] else []);
        }
        assert rules[..|rules|] == rules;
        states := map id | id in states && id in Live(rules) :: states[id];
      }
      prev := Some(round.cur);
    }
  }
}
