/** internal/modules/alert/{eval,evaluator}.go: when a run of the evaluator alarms, said of samples and thresholds. */
module AlertRuns {
  import opened Text
  import opened AlertEvaluator

  // ---------- What a rule asks of a sample ----------

  predicate Beyond(r: Rule, value: real) {
    (r.comparator == GreaterThan && value > r.threshold) || (r.comparator == LessThan && value < r.threshold)
  }

  /** A disk rate can be had: time has passed since the sample before, and the counter has not gone back. */
  predicate HasRate(cur: Sample, prev: Option<Sample>) {
    prev.Some? && prev.value.at < cur.at && prev.value.diskIOBytes <= cur.diskIOBytes
  }

  /** The rate in bytes per second compared with the threshold, without a division: bytes against nanoseconds. */
  predicate RateBeyond(r: Rule, bytes: real, elapsed: real) {
    (r.comparator == GreaterThan && bytes * SECOND as real > r.threshold * elapsed) ||
    (r.comparator == LessThan && bytes * SECOND as real < r.threshold * elapsed)
  }

  /** The sample is on the wrong side of the threshold. */
  predicate Breach(r: Rule, cur: Sample, prev: Option<Sample>) {
    (r.metric == Cpu && Beyond(r, cur.cpu)) || (r.metric == Memory && Beyond(r, cur.memory)) ||
    (r.metric == Disk && Beyond(r, cur.disk)) || (r.metric == Load && Beyond(r, cur.load1)) ||
    (r.metric == OtherMetric && Beyond(r, 0.0)) ||
    (r.metric == DiskIO &&
     if HasRate(cur, prev)
     then RateBeyond(r, (cur.diskIOBytes - prev.value.diskIOBytes) as real, (cur.at - prev.value.at) as real)
     else Beyond(r, 0.0))
  }

  lemma RateIs(bytes: real, elapsed: real, threshold: real)
    requires elapsed > 0.0
    ensures var rate := bytes / (elapsed / SECOND as real);
            (rate > threshold <==> bytes * SECOND as real > threshold * elapsed) &&
            (rate < threshold <==> bytes * SECOND as real < threshold * elapsed)
  {
    var second := SECOND as real;
    var seconds := elapsed / second;
    var rate := bytes / seconds;
    assert seconds * second == elapsed && rate * seconds == bytes;
    assert bytes * second == rate * elapsed by {
      assert (rate * seconds) * second == rate * (seconds * second);
    }
    ScaledOrder(rate, threshold, elapsed);
    ScaledOrder(threshold, rate, elapsed);
  }

  lemma ScaledOrder(x: real, y: real, k: real)
    requires k > 0.0
    ensures x < y <==> x * k < y * k
  {
    assert (y - x) * k == y * k - x * k;
    if x < y {
      assert (y - x) * k > 0.0;
    } else {
      assert (x - y) * k >= 0.0;
    }
  }

  lemma BreachIff(r: Rule, cur: Sample, prev: Option<Sample>)
    ensures Firing(r, MetricValue(r.metric, cur, prev)) <==> Breach(r, cur, prev)
  {
    if r.metric == DiskIO && HasRate(cur, prev) {
      RateIs((cur.diskIOBytes - prev.value.diskIOBytes) as real, (cur.at - prev.value.at) as real, r.threshold);
    }
  }

  // ---------- Rounds and the history of a rule ----------

  /** Round m reads its rules. */
  predicate Reads(rounds: seq<Round>, m: nat) {
    m < |rounds| && rounds[m].rules.Some?
  }

  /** The rule as round m finds it. */
  function RuleAt(rounds: seq<Round>, m: nat, id: int): Option<Rule>
    requires Reads(rounds, m)
  {
    RuleIn(rounds[m].rules.value, id)
  }

  /** Where the round stands in the history of the rule. */
  function Place(rounds: seq<Round>, m: nat, id: int): int
    requires m < |rounds|
  {
    |HistoryOf(rounds[..m + 1], id)| - 1
  }

  /** What round m adds to the history of the rule. */
  function EntryAt(rounds: seq<Round>, m: nat, id: int): Option<Check>
    requires Reads(rounds, m)
  {
    match RuleAt(rounds, m, id)
    case Some(r) => Some(CheckOf(r, rounds[m], PrevSample(rounds[..m])))
    case None => None
  }

  lemma EntryIsLast(rounds: seq<Round>, m: nat, id: int)
    requires Reads(rounds, m)
    ensures HistoryOf(rounds[..m + 1], id) == HistoryOf(rounds[..m], id) + [EntryAt(rounds, m, id)]
  {
    assert rounds[..m + 1][..m] == rounds[..m];
  }

  lemma PlaceIs(rounds: seq<Round>, m: nat, id: int)
    requires Reads(rounds, m)
    ensures var h, k := HistoryOf(rounds, id), Place(rounds, m, id);
            0 <= k < |h| && h[..k + 1] == HistoryOf(rounds[..m + 1], id) && h[k] == EntryAt(rounds, m, id)
  {
    var h, g := HistoryOf(rounds, id), HistoryOf(rounds[..m + 1], id);
    assert |g| <= |h| && g == h[..|g|] by {
      HistoryPrefix(rounds, m + 1, id);
    }
    EntryIsLast(rounds, m, id);
    assert h[|g| - 1] == g[|g| - 1];
  }

  lemma PlacesInOrder(rounds: seq<Round>, i: nat, m: nat, id: int)
    requires Reads(rounds, i) && Reads(rounds, m)
    ensures i < m <==> Place(rounds, i, id) < Place(rounds, m, id)
  {
    if i < m {
      LaterPlace(rounds, i, m, id);
    } else if m < i {
      LaterPlace(rounds, m, i, id);
    }
  }

  lemma LaterPlace(rounds: seq<Round>, i: nat, m: nat, id: int)
    requires Reads(rounds, m) && i < m
    ensures Place(rounds, i, id) < Place(rounds, m, id)
  {
    var upTo := rounds[..m + 1];
    HistoryPrefix(upTo[..m], i + 1, id);
    assert upTo[..m] == rounds[..m] && rounds[..m][..i + 1] == rounds[..i + 1];
  }

  /** Each entry of the history is that of some round. */
  lemma {:induction false} RoundOf(rounds: seq<Round>, k: nat, id: int) returns (m: nat)
    requires k < |HistoryOf(rounds, id)|
    ensures Reads(rounds, m) && Place(rounds, m, id) == k
  {
    var n := |rounds| - 1;
    var front := HistoryOf(rounds[..n], id);
    if k < |front| {
      m := RoundOf(rounds[..n], k, id);
      assert rounds[..n][..m + 1] == rounds[..m + 1];
    } else {
      m := n;
      assert rounds[..n + 1] == rounds;
    }
  }

  // ---------- Runs ----------

  /** The rule is there in rounds j and k, and in each one between that reads its rules. */
  ghost predicate EnabledThrough(rounds: seq<Round>, j: nat, k: nat, id: int) {
    j <= k && Reads(rounds, j) && Reads(rounds, k) &&
    forall m :: j <= m <= k && Reads(rounds, m) ==> RuleAt(rounds, m, id).Some?
  }

  /** And it is on the wrong side of its threshold in each of them. */
  ghost predicate BreachedThrough(rounds: seq<Round>, j: nat, k: nat, id: int) {
    EnabledThrough(rounds, j, k, id) &&
    forall m {:trigger Reads(rounds, m)} :: j <= m <= k && Reads(rounds, m) ==>
                                              Breach(RuleAt(rounds, m, id).value, rounds[m].cur, PrevSample(rounds[..m]))
  }

  /** What the evaluator does: in round i it tries a send for the rule. */
  predicate Tries(rounds: seq<Round>, i: nat, id: int) {
    Reads(rounds, i) && id in SendsUpTo(StatesAfter(rounds[..i]), rounds[i].rules.value, rounds[i], PrevSample(rounds[..i]))
  }

  /** The rows it records for the rule in round i. */
  function Records(rounds: seq<Round>, i: nat, id: int): seq<Row>
    requires Reads(rounds, i)
  {
    RowsFor(RowsUpTo(StatesAfter(rounds[..i]), rounds[i].rules.value, rounds[i], PrevSample(rounds[..i])), id)
  }

  lemma EnabledIff(rounds: seq<Round>, j: nat, k: nat, id: int)
    requires Reads(rounds, j) && Reads(rounds, k) && j <= k
    ensures EnabledThrough(rounds, j, k, id) <==>
            EnabledFrom(HistoryOf(rounds, id), Place(rounds, j, id), Place(rounds, k, id))
  {
    var h, a, b := HistoryOf(rounds, id), Place(rounds, j, id), Place(rounds, k, id);
    PlaceIs(rounds, j, id);
    PlaceIs(rounds, k, id);
    PlacesInOrder(rounds, k, j, id);
    if EnabledThrough(rounds, j, k, id) {
      forall i | a <= i <= b
        ensures h[i].Some?
      {
        var m := RoundOf(rounds, i, id);
        Between(rounds, j, m, k, id);
        PlaceIs(rounds, m, id);
      }
    }
    if EnabledFrom(h, a, b) {
      forall m | j <= m <= k && Reads(rounds, m)
        ensures RuleAt(rounds, m, id).Some?
      {
        Between(rounds, j, m, k, id);
        PlaceIs(rounds, m, id);
      }
    }
  }

  lemma Between(rounds: seq<Round>, j: nat, m: nat, k: nat, id: int)
    requires Reads(rounds, j) && Reads(rounds, m) && Reads(rounds, k)
    ensures j <= m <= k <==> Place(rounds, j, id) <= Place(rounds, m, id) <= Place(rounds, k, id)
  {
    PlacesInOrder(rounds, m, j, id);
    PlacesInOrder(rounds, k, m, id);
  }

  lemma BreachedIff(rounds: seq<Round>, j: nat, k: nat, id: int)
    requires Reads(rounds, j) && Reads(rounds, k) && j <= k
    ensures BreachedThrough(rounds, j, k, id) <==>
            Unbroken(HistoryOf(rounds, id), Place(rounds, j, id), Place(rounds, k, id))
  {
    var h, a, b := HistoryOf(rounds, id), Place(rounds, j, id), Place(rounds, k, id);
    EnabledIff(rounds, j, k, id);
    PlaceIs(rounds, j, id);
    if BreachedThrough(rounds, j, k, id) {
      forall i | a <= i <= b
        ensures h[i].value.firing
      {
        var m := RoundOf(rounds, i, id);
        Between(rounds, j, m, k, id);
        PlaceIs(rounds, m, id);
        BreachIff(RuleAt(rounds, m, id).value, rounds[m].cur, PrevSample(rounds[..m]));
      }
    }
    if Unbroken(h, a, b) {
      forall m {:trigger Reads(rounds, m)} | j <= m <= k && Reads(rounds, m)
        ensures Breach(RuleAt(rounds, m, id).value, rounds[m].cur, PrevSample(rounds[..m]))
      {
        Between(rounds, j, m, k, id);
        PlaceIs(rounds, m, id);
        BreachIff(RuleAt(rounds, m, id).value, rounds[m].cur, PrevSample(rounds[..m]));
      }
    }
  }

  /** Some unbroken breach that lasts up to round k began long enough ago. */
  ghost predicate BreachedLongEnough(rounds: seq<Round>, k: nat, id: int) {
    exists j: nat :: BreachedThrough(rounds, j, k, id) &&
                     rounds[k].now - rounds[j].now >= RuleAt(rounds, k, id).value.durationSec * SECOND
  }

  /** A send that succeeded while the rule was enabled up to now is younger than the silence. */
  ghost predicate SentRecently(rounds: seq<Round>, k: nat, id: int) {
    exists i: nat :: i < k && EnabledThrough(rounds, i, k, id) && Tries(rounds, i, id) && rounds[i].sendOk(id) &&
                     rounds[k].now - rounds[i].now < rounds[k].silenceSec * SECOND
  }

  lemma RunSoFar(rounds: seq<Round>, i: nat)
    requires Run(rounds) && i <= |rounds|
    ensures Run(rounds[..i])
  {
  }

  /** What the evaluator does in round i, in terms of the history of the whole run. */
  lemma RoundRefines(rounds: seq<Round>, i: nat, id: int)
    requires Run(rounds) && Reads(rounds, i) && RuleAt(rounds, i, id).Some?
    ensures var h, k, r := HistoryOf(rounds, id), Place(rounds, i, id), RuleAt(rounds, i, id).value;
            0 <= k < |h| && (Tries(rounds, i, id) <==> MustSend(h, k)) &&
            Records(rounds, i, id) ==
            if Overdue(h, k) && rounds[i].recordOk(id) then
              [Row(id, MetricValue(r.metric, rounds[i].cur, PrevSample(rounds[..i])),
                   MustSend(h, k) && rounds[i].sendOk(id), !MustSend(h, k))]
            else []
  {
    var upTo := rounds[..i + 1];
    RunSoFar(rounds, i + 1);
    RuleInLive(rounds[i].rules.value, id);
    assert upTo[..|upTo| - 1] == rounds[..i] && upTo[|upTo| - 1] == rounds[i];
    RunRefinesHistory(upTo, id);
    PlaceIs(rounds, i, id);
    PrefixSame(HistoryOf(rounds, id), Place(rounds, i, id) + 1, Place(rounds, i, id));
  }

  lemma OverdueIff(rounds: seq<Round>, k: nat, id: int)
    requires Run(rounds) && Reads(rounds, k) && RuleAt(rounds, k, id).Some?
    ensures Place(rounds, k, id) >= 0
    ensures BreachedLongEnough(rounds, k, id) <==> Overdue(HistoryOf(rounds, id), Place(rounds, k, id))
  {
    var h, b := HistoryOf(rounds, id), Place(rounds, k, id);
    PlaceIs(rounds, k, id);
    if BreachedLongEnough(rounds, k, id) {
      var j: nat :| BreachedThrough(rounds, j, k, id) &&
                    rounds[k].now - rounds[j].now >= RuleAt(rounds, k, id).value.durationSec * SECOND;
      BreachedIff(rounds, j, k, id);
      PlaceIs(rounds, j, id);
    }
    if Overdue(h, b) {
      var a: nat :| a <= b && Unbroken(h, a, b) && h[b].value.now - h[a].value.now >= h[b].value.durationSec * SECOND;
      var j := RoundOf(rounds, a, id);
      PlacesInOrder(rounds, k, j, id);
      BreachedIff(rounds, j, k, id);
      PlaceIs(rounds, j, id);
    }
  }

  lemma YoungIff(rounds: seq<Round>, k: nat, id: int)
    requires Run(rounds) && Reads(rounds, k) && RuleAt(rounds, k, id).Some?
    ensures var h, b := HistoryOf(rounds, id), Place(rounds, k, id);
            0 <= b < |h| && h[b].Some? && (SentRecently(rounds, k, id) <==> Young(h, b))
  {
    var h, b := HistoryOf(rounds, id), Place(rounds, k, id);
    PlaceIs(rounds, k, id);
    if SentRecently(rounds, k, id) {
      var i: nat :| i < k && EnabledThrough(rounds, i, k, id) && Tries(rounds, i, id) && rounds[i].sendOk(id) &&
                    rounds[k].now - rounds[i].now < rounds[k].silenceSec * SECOND;
      SentSinceIff(rounds, i, k, id);
      PlaceIs(rounds, i, id);
    }
    if Young(h, b) {
      var a: nat :| a < b && SentSince(h, a, b) && h[b].value.now - h[a].value.now < h[b].value.silenceSec * SECOND;
      var i := RoundOf(rounds, a, id);
      SentSinceIff(rounds, i, k, id);
      PlaceIs(rounds, i, id);
    }
  }

  lemma SentSinceIff(rounds: seq<Round>, i: nat, k: nat, id: int)
    requires Run(rounds) && Reads(rounds, i) && Reads(rounds, k) && RuleAt(rounds, k, id).Some?
    ensures 0 <= Place(rounds, i, id) && 0 <= Place(rounds, k, id) && (i < k <==> Place(rounds, i, id) < Place(rounds, k, id))
    ensures i < k ==> (EnabledThrough(rounds, i, k, id) && Tries(rounds, i, id) && rounds[i].sendOk(id) <==>
                       SentSince(HistoryOf(rounds, id), Place(rounds, i, id), Place(rounds, k, id)))
  {
    PlaceIs(rounds, i, id);
    PlaceIs(rounds, k, id);
    PlacesInOrder(rounds, i, k, id);
    if i < k {
      EnabledIff(rounds, i, k, id);
      if RuleAt(rounds, i, id).Some? {
        RoundRefines(rounds, i, id);
        SameId(rounds[i].rules.value, id);
      }
    }
  }

  lemma SameId(rules: seq<Rule>, id: int)
    ensures RuleIn(rules, id).Some? ==> RuleIn(rules, id).value.id == id
  {
    RuleInLive(rules, id);
  }

  /** Main theorem: in every round of every run a send is tried for an enabled rule if and only if its metric has been
      beyond its threshold without a break for the duration, and no send that succeeded since it was enabled is
      younger than the silence. */
  lemma RunAlarmsIff(rounds: seq<Round>, k: nat, id: int)
    requires Run(rounds) && Reads(rounds, k) && RuleAt(rounds, k, id).Some?
    ensures Tries(rounds, k, id) <==> BreachedLongEnough(rounds, k, id) && !SentRecently(rounds, k, id)
  {
    RoundRefines(rounds, k, id);
    OverdueIff(rounds, k, id);
    YoungIff(rounds, k, id);
  }

  /** What the row of an alarm says of the sample. */
  predicate Measured(m: Metric, value: real, cur: Sample, prev: Option<Sample>) {
    (m == Cpu ==> value == cur.cpu) && (m == Memory ==> value == cur.memory) && (m == Disk ==> value == cur.disk) &&
    (m == Load ==> value == cur.load1) && (m == OtherMetric ==> value == 0.0) &&
    (m == DiskIO ==>
       if HasRate(cur, prev)
       then value * (cur.at - prev.value.at) as real == (cur.diskIOBytes - prev.value.diskIOBytes) as real * SECOND as real
       else value == 0.0)
  }

  lemma ValueIsMeasured(m: Metric, cur: Sample, prev: Option<Sample>)
    ensures Measured(m, MetricValue(m, cur, prev), cur, prev)
  {
    if m == DiskIO && HasRate(cur, prev) {
      var bytes, elapsed := (cur.diskIOBytes - prev.value.diskIOBytes) as real, (cur.at - prev.value.at) as real;
      var seconds := elapsed / SECOND as real;
      var rate := bytes / seconds;
      assert rate * seconds == bytes && seconds * SECOND as real == elapsed;
      assert (rate * seconds) * SECOND as real == rate * (seconds * SECOND as real);
    }
  }

  /** Main theorem on the history table: one row for a breach that has lasted long enough and can be recorded, with the
      measured value and what became of the notification; no row otherwise. */
  lemma RunRecords(rounds: seq<Round>, k: nat, id: int)
    requires Run(rounds) && Reads(rounds, k) && RuleAt(rounds, k, id).Some?
    ensures if BreachedLongEnough(rounds, k, id) && rounds[k].recordOk(id) then
              exists value :: Measured(RuleAt(rounds, k, id).value.metric, value, rounds[k].cur, PrevSample(rounds[..k])) &&
                              Records(rounds, k, id) ==
                              [Row(id, value, Tries(rounds, k, id) && rounds[k].sendOk(id), !Tries(rounds, k, id))]
            else Records(rounds, k, id) == []
  {
    RoundRefines(rounds, k, id);
    OverdueIff(rounds, k, id);
    ValueIsMeasured(RuleAt(rounds, k, id).value.metric, rounds[k].cur, PrevSample(rounds[..k]));
  }
}
