/** internal/auth/ipban.go and internal/store/ipban.go: bans of addresses, kept in a table and cached in memory.
    Clocks read nanoseconds, the table holds whole seconds. */
module IpBan {
  import opened Text

  type Ip = string

  const SECOND: int := 1_000_000_000

  /** time.Time.Unix. */
  function Unix(now: int): int {
    now / SECOND
  }

  // ---------- The ip_bans table ----------

  type Table = map<Ip, int>

  function ActiveBans(t: Table, now: int): Table {
    map ip | ip in t && t[ip] > now :: t[ip]
  }

  function DeleteExpired(t: Table, now: int): Table {
    map ip | ip in t && !(t[ip] <= now) :: t[ip]
  }

  // ---------- The guard ----------

  /** `clock` is the last time read; the table outlives the process. */
  datatype State = State(maxAttempts: int, banDuration: int, failures: map<Ip, nat>, banned: Table, table: Table,
                         clock: int)

  datatype Op =
    | Banned(ip: Ip, now: int, later: int, deleteOk: bool)
    | Fail(ip: Ip, now: int, writeOk: bool)
    | Ban(ip: Ip, now: int, writeOk: bool)
    | Reset(ip: Ip)
    | SetThresholds(maxAttempts: int, banDuration: int)
    | Restart(maxAttempts: int, banDuration: int, now: int)

  /** The clock never goes back. */
  predicate InTime(s: State, op: Op) {
    match op
    case Banned(_, now, later, _) => s.clock <= now <= later
    case Fail(_, now, _) => s.clock <= now
    case Ban(_, now, _) => s.clock <= now
    case Restart(_, _, now) => s.clock <= now
    case _ => true
  }

  function FailuresOf(s: State, ip: Ip): nat {
    if ip in s.failures then s.failures[ip] else 0
  }

  function BanNow(s: State, ip: Ip, now: int, writeOk: bool): State {
    var until := Unix(now + s.banDuration);
    s.(banned := s.banned[ip := until], failures := s.failures - {ip},
       table := if writeOk then s.table[ip := until] else s.table, clock := now)
  }

  /** What Banned answers. */
  predicate Answer(s: State, ip: Ip, now: int) {
    ip in s.banned && Unix(now) < s.banned[ip]
  }

  function Apply(s: State, op: Op): State {
    match op
    case Banned(ip, now, later, deleteOk) =>
      if ip !in s.banned then s
      else if Unix(now) >= s.banned[ip] then
        s.(banned := s.banned - {ip}, table := if deleteOk then DeleteExpired(s.table, Unix(later)) else s.table,
           clock := later)
      else s.(clock := now)
    case Fail(ip, now, writeOk) =>
      var n := FailuresOf(s, ip) + 1;
      if n < s.maxAttempts then s.(failures := s.failures[ip := n]) else BanNow(s, ip, now, writeOk)
    case Ban(ip, now, writeOk) => BanNow(s, ip, now, writeOk)
    case Reset(ip) => s.(failures := s.failures - {ip})
    case SetThresholds(m, d) => s.(maxAttempts := m, banDuration := d)
    case Restart(m, d, now) => Begin(m, d, s.table, now)
  }

  predicate WriteOk(op: Op) {
    match op
    case Fail(_, _, ok) => ok
    case Ban(_, _, ok) => ok
    case _ => true
  }

  function Begin(maxAttempts: int, banDuration: int, table: Table, now: int): State {
    State(maxAttempts, banDuration, map[], ActiveBans(table, Unix(now)), table, now)
  }

  function StateAfter(start: State, ops: seq<Op>): State {
    if ops == [] then start else Apply(StateAfter(start, ops[..|ops| - 1]), ops[|ops| - 1])
  }

  /** Times never go back, and every ban is written. */
  predicate Run(start: State, ops: seq<Op>) {
    ops == [] ||
    var n := |ops| - 1;
    Run(start, ops[..n]) && InTime(StateAfter(start, ops[..n]), ops[n]) && WriteOk(ops[n])
  }

  // ---------- The history of bans, never cleaned ----------

  /** Whether the operation bans the address, when done in state s. */
  predicate Bans(s: State, op: Op, ip: Ip) {
    match op
    case Ban(other, _, _) => other == ip
    case Fail(other, _, _) => other == ip && FailuresOf(s, ip) + 1 >= s.maxAttempts
    case _ => false
  }

  /** Until when the last ban of an address lasts, if it ever had one. */
  function LastBan(start: State, ops: seq<Op>, ip: Ip): Option<int> {
    if ops == [] then if ip in start.table then Some(start.table[ip]) else None
    else
      var n := |ops| - 1;
      var s := StateAfter(start, ops[..n]);
      if Bans(s, ops[n], ip) then Some(Unix(ops[n].now + s.banDuration)) else LastBan(start, ops[..n], ip)
  }

  predicate IsFailure(op: Op, ip: Ip) {
    op.Fail? && op.ip == ip
  }

  /** Operation k ends a row of failures: a ban, a login that succeeded, or a new process. */
  predicate Ends(start: State, ops: seq<Op>, ip: Ip, k: nat)
    requires k < |ops|
  {
    Bans(StateAfter(start, ops[..k]), ops[k], ip) || ops[k] == Reset(ip) || ops[k].Restart?
  }

  /** The failed logins of an address with no such end at or after them. */
  function FailuresInARow(start: State, ops: seq<Op>, ip: Ip): set<nat> {
    set i: nat | i < |ops| && IsFailure(ops[i], ip) && Open(start, ops, ip, i)
  }

  predicate Open(start: State, ops: seq<Op>, ip: Ip, i: nat) {
    forall k: nat :: i <= k < |ops| ==> !Ends(start, ops, ip, k)
  }

  // ---------- The invariant ----------

  predicate Lasts(t: Table, ip: Ip, second: int) {
    ip in t && second < t[ip]
  }

  /** From the clock on, cache and table say the same of every address at every second. */
  ghost predicate Agrees(s: State) {
    forall ip, second :: Unix(s.clock) <= second ==> (Lasts(s.banned, ip, second) <==> Lasts(s.table, ip, second))
  }

  lemma UnixMonotone(a: int, b: int)
    requires a <= b
    ensures Unix(a) <= Unix(b)
  {
  }

  lemma CleanedLasts(t: Table, ip: Ip, now: int, second: int)
    requires now <= second
    ensures Lasts(DeleteExpired(t, now), ip, second) <==> Lasts(t, ip, second)
  {
  }

  lemma StepAgrees(s: State, op: Op)
    requires Agrees(s) && InTime(s, op) && WriteOk(op)
    ensures Agrees(Apply(s, op)) && s.clock <= Apply(s, op).clock
  {
    var next := Apply(s, op);
    UnixMonotone(s.clock, next.clock);
    forall ip, second | Unix(next.clock) <= second
      ensures Lasts(next.banned, ip, second) <==> Lasts(next.table, ip, second)
    {
      assert Lasts(s.banned, ip, second) <==> Lasts(s.table, ip, second);
      match op
      case Banned(_, now, later, _) =>
        UnixMonotone(now, later);
        if Unix(later) <= second {
          CleanedLasts(s.table, ip, Unix(later), second);
        }
      case Restart(_, _, now) => CleanedLasts(s.table, ip, Unix(now), second);
      case _ =>
    }
  }

  lemma BeginAgrees(maxAttempts: int, banDuration: int, table: Table, now: int)
    ensures Agrees(Begin(maxAttempts, banDuration, table, now))
  {
    forall ip, second | Unix(now) <= second
      ensures Lasts(ActiveBans(table, Unix(now)), ip, second) <==> Lasts(table, ip, second)
    {
      CleanedLasts(table, ip, Unix(now), second);
    }
  }

  lemma {:induction false} RunAgrees(start: State, ops: seq<Op>)
    requires Agrees(start) && Run(start, ops)
    ensures Agrees(StateAfter(start, ops)) && start.clock <= StateAfter(start, ops).clock
  {
    if ops != [] {
      RunAgrees(start, ops[..|ops| - 1]);
      StepAgrees(StateAfter(start, ops[..|ops| - 1]), ops[|ops| - 1]);
    }
  }

  /** In every run with successful writes, at every later time, Banned answers exactly whether the stored row
      lasts longer. */
  lemma {:induction false} CacheAgreesWithTable(start: State, ops: seq<Op>, ip: Ip, now: int)
    requires start == Begin(start.maxAttempts, start.banDuration, start.table, start.clock) && Run(start, ops)
    requires StateAfter(start, ops).clock <= now
    ensures var s := StateAfter(start, ops); Answer(s, ip, now) <==> ip in s.table && s.table[ip] > Unix(now)
  {
    BeginAgrees(start.maxAttempts, start.banDuration, start.table, start.clock);
    RunAgrees(start, ops);
    var s := StateAfter(start, ops);
    UnixMonotone(s.clock, now);
    assert Lasts(s.banned, ip, Unix(now)) <==> Lasts(s.table, ip, Unix(now));
  }

  lemma StepLastBan(s: State, op: Op, ip: Ip, second: int, last: Option<int>)
    requires InTime(s, op) && WriteOk(op) && Unix(Apply(s, op).clock) <= second
    requires Agrees(s) && (Lasts(s.table, ip, second) <==> last.Some? && second < last.value)
    ensures var after := if Bans(s, op, ip) then Some(Unix(op.now + s.banDuration)) else last;
            Lasts(Apply(s, op).table, ip, second) <==> after.Some? && second < after.value
  {
    if op.Banned? && Unix(op.later) <= second {
      CleanedLasts(s.table, ip, Unix(op.later), second);
    }
  }

  lemma {:induction false} TableIsLastBan(start: State, ops: seq<Op>, ip: Ip, second: int)
    requires Agrees(start) && Run(start, ops) && Unix(StateAfter(start, ops).clock) <= second
    ensures Lasts(StateAfter(start, ops).table, ip, second) <==>
            LastBan(start, ops, ip).Some? && second < LastBan(start, ops, ip).value
  {
    if ops != [] {
      var n := |ops| - 1;
      RunAgrees(start, ops[..n]);
      var s := StateAfter(start, ops[..n]);
      StepAgrees(s, ops[n]);
      UnixMonotone(s.clock, Apply(s, ops[n]).clock);
      TableIsLastBan(start, ops[..n], ip, second);
      StepLastBan(s, ops[n], ip, second, LastBan(start, ops[..n], ip));
    }
  }

  /** Main theorem: expiry clean-up and restarts change no answer. However many of them a run has, Banned says
      yes exactly when the last ban of the address, in a history that nobody cleans, is not over. */
  lemma BannedAnswersHistory(start: State, ops: seq<Op>, ip: Ip, now: int)
    requires start == Begin(start.maxAttempts, start.banDuration, start.table, start.clock) && Run(start, ops)
    requires StateAfter(start, ops).clock <= now
    ensures var last := LastBan(start, ops, ip);
            Answer(StateAfter(start, ops), ip, now) <==> last.Some? && Unix(now) < last.value
  {
    BeginAgrees(start.maxAttempts, start.banDuration, start.table, start.clock);
    CacheAgreesWithTable(start, ops, ip, now);
    UnixMonotone(StateAfter(start, ops).clock, now);
    TableIsLastBan(start, ops, ip, Unix(now));
  }

  lemma OpenStep(start: State, ops: seq<Op>, ip: Ip, i: nat)
    requires ops != [] && i < |ops|
    ensures Open(start, ops, ip, i) <==>
            (i < |ops| - 1 ==> Open(start, ops[..|ops| - 1], ip, i)) && !Ends(start, ops, ip, |ops| - 1)
  {
    var n := |ops| - 1;
    forall k: nat | k < n
      ensures Ends(start, ops, ip, k) <==> Ends(start, ops[..n], ip, k)
    {
      assert ops[..n][..k] == ops[..k];
    }
  }

  /** One more operation empties the row, adds itself or leaves it. */
  lemma RowStep(start: State, ops: seq<Op>, ip: Ip)
    requires ops != []
    ensures var n := |ops| - 1;
            var before := FailuresInARow(start, ops[..n], ip);
            FailuresInARow(start, ops, ip) ==
            if Ends(start, ops, ip, n) then {} else if IsFailure(ops[n], ip) then before + {n} else before
  {
    var n := |ops| - 1;
    forall i: nat | i <= n
      ensures Open(start, ops, ip, i) <==> (i < n ==> Open(start, ops[..n], ip, i)) && !Ends(start, ops, ip, n)
    {
      OpenStep(start, ops, ip, i);
    }
  }

  lemma {:induction false} CounterIsRow(start: State, ops: seq<Op>, ip: Ip)
    requires start.failures == map[]
    ensures FailuresOf(StateAfter(start, ops), ip) == |FailuresInARow(start, ops, ip)|
  {
    if ops == [] {
      assert FailuresInARow(start, ops, ip) == {};
    } else {
      CounterIsRow(start, ops[..|ops| - 1], ip);
      RowStep(start, ops, ip);
    }
  }

  /** A failed login bans if and only if, itself included, the failures of the address since it was last banned or
      reset or the process began are at least the threshold then set. */
  lemma FailBansAtThreshold(start: State, ops: seq<Op>, ip: Ip, now: int, writeOk: bool)
    requires start.failures == map[]
    ensures Bans(StateAfter(start, ops), Fail(ip, now, writeOk), ip) <==>
            |FailuresInARow(start, ops, ip)| + 1 >= StateAfter(start, ops).maxAttempts
  {
    CounterIsRow(start, ops, ip);
  }

  // ---------- Limits in force, and bans in nanoseconds ----------

  /** The threshold and the duration of bans that were set last. */
  function LimitsOf(maxAttempts: int, banDuration: int, ops: seq<Op>): (int, int) {
    if ops == [] then (maxAttempts, banDuration)
    else match ops[|ops| - 1]
      case SetThresholds(m, d) => (m, d)
      case Restart(m, d, _) => (m, d)
      case _ => LimitsOf(maxAttempts, banDuration, ops[..|ops| - 1])
  }

  lemma {:induction false} LimitsInForce(maxAttempts: int, banDuration: int, table: Table, began: int, ops: seq<Op>)
    ensures var s := StateAfter(Begin(maxAttempts, banDuration, table, began), ops);
            (s.maxAttempts, s.banDuration) == LimitsOf(maxAttempts, banDuration, ops)
  {
    if ops != [] {
      LimitsInForce(maxAttempts, banDuration, table, began, ops[..|ops| - 1]);
    }
  }

  /** The instant at which the last ban of an address is over: the beginning of the second in which its duration, as
      then in force, runs out. */
  function BanOver(maxAttempts: int, banDuration: int, table: Table, began: int, ops: seq<Op>, ip: Ip): Option<int> {
    if ops == [] then if ip in table then Some(table[ip] * SECOND) else None
    else
      var n := |ops| - 1;
      var start := Begin(maxAttempts, banDuration, table, began);
      if Bans(StateAfter(start, ops[..n]), ops[n], ip) then
        var ends := ops[n].now + LimitsOf(maxAttempts, banDuration, ops[..n]).1;
        Some(ends - ends % SECOND)
      else BanOver(maxAttempts, banDuration, table, began, ops[..n], ip)
  }

  lemma {:induction false} LastBanInSeconds(maxAttempts: int, banDuration: int, table: Table, began: int, ops: seq<Op>, ip: Ip)
    ensures var last := LastBan(Begin(maxAttempts, banDuration, table, began), ops, ip);
            BanOver(maxAttempts, banDuration, table, began, ops, ip) ==
            if last.Some? then Some(last.value * SECOND) else None
  {
    if ops != [] {
      var n := |ops| - 1;
      LimitsInForce(maxAttempts, banDuration, table, began, ops[..n]);
      LastBanInSeconds(maxAttempts, banDuration, table, began, ops[..n], ip);
    }
  }

  lemma UnixBefore(now: int, second: int)
    ensures Unix(now) < second <==> now < second * SECOND
  {
  }

  /** A process that began on any table, after any run: an address is answered to be banned if and only if its last ban
      is not over, to the nanosecond. */
  lemma BannedUntilOver(maxAttempts: int, banDuration: int, table: Table, began: int, ops: seq<Op>, ip: Ip, now: int)
    requires Run(Begin(maxAttempts, banDuration, table, began), ops)
    requires StateAfter(Begin(maxAttempts, banDuration, table, began), ops).clock <= now
    ensures var over := BanOver(maxAttempts, banDuration, table, began, ops, ip);
            Answer(StateAfter(Begin(maxAttempts, banDuration, table, began), ops), ip, now) <==>
            over.Some? && now < over.value
  {
    var start := Begin(maxAttempts, banDuration, table, began);
    LimitsInForce(maxAttempts, banDuration, table, began, []);
    assert StateAfter(start, []) == start;
    BannedAnswersHistory(start, ops, ip, now);
    LastBanInSeconds(maxAttempts, banDuration, table, began, ops, ip);
    var last := LastBan(start, ops, ip);
    if last.Some? {
      UnixBefore(now, last.value);
    }
  }

  /** And a failed login bans if and only if the failures in a row reach the threshold then in force. */
  lemma FailBansInForce(maxAttempts: int, banDuration: int, table: Table, began: int, ops: seq<Op>, ip: Ip, now: int,
                        writeOk: bool)
    ensures var start := Begin(maxAttempts, banDuration, table, began);
            Bans(StateAfter(start, ops), Fail(ip, now, writeOk), ip) <==>
            |FailuresInARow(start, ops, ip)| + 1 >= LimitsOf(maxAttempts, banDuration, ops).0
  {
    LimitsInForce(maxAttempts, banDuration, table, began, ops);
    FailBansAtThreshold(Begin(maxAttempts, banDuration, table, began), ops, ip, now, writeOk);
  }

  // ---------- A write that fails ----------

  /** When the row of a ban could not be written, cache and table still agree exactly if the new ban and the old
      row end in the same second, or both are over already. */
  lemma LostWriteAgreesIff(s: State, ip: Ip, now: int)
    requires Agrees(s) && s.clock <= now
    ensures var until := Unix(now + s.banDuration);
            Agrees(BanNow(s, ip, now, false)) <==>
            (!Lasts(s.table, ip, Unix(now)) && until <= Unix(now)) || (ip in s.table && s.table[ip] == until)
  {
    var next := BanNow(s, ip, now, false);
    var until := Unix(now + s.banDuration);
    UnixMonotone(s.clock, now);
    var low := Unix(now);
    if (!Lasts(s.table, ip, low) && until <= low) || (ip in s.table && s.table[ip] == until) {
      forall other, second | low <= second
        ensures Lasts(next.banned, other, second) <==> Lasts(next.table, other, second)
      {
        if other != ip {
          assert Lasts(s.banned, other, second) <==> Lasts(s.table, other, second);
        }
      }
    } else {
      var row := if ip in s.table then s.table[ip] else low;
      var second := if row < until then (if low < row then row else low) else if low < until then until else low;
      assert Lasts(next.banned, ip, second) != Lasts(next.table, ip, second);
    }
  }

  // ---------- The guard and the store as the program has them ----------

  class BanStore {
    var table: Table

    constructor (table: Table)
      ensures this.table == table
    {
      this.table := table;
    }

    method BanIP(ip: Ip, until: int, ok: bool)
      modifies this
      ensures table == if ok then old(table)[ip := until] else old(table)
    {
      if ok {
        table := table[ip := until];
      }
    }

    /** The rows come in any order. */
    method LoadActive(now: int) returns (active: Table)
      ensures active == ActiveBans(table, now)
      ensures forall ip :: ip in active <==> ip in table && now < table[ip]
      ensures forall ip :: ip in active ==> active[ip] == table[ip]
    {
      active := map[];
      var todo := table.Keys;
      while todo != {}
        invariant todo <= table.Keys
        invariant forall ip :: ip in active <==> ip in table.Keys - todo && table[ip] > now
        invariant forall ip :: ip in active ==> active[ip] == table[ip]
        decreases todo
      {
        var ip :| ip in todo;
        if table[ip] > now {
          active := active[ip := table[ip]];
        }
        todo := todo - {ip};
      }
    }

    method DeleteExpiredBans(now: int, ok: bool)
      modifies this
      ensures table == if ok then DeleteExpired(old(table), now) else old(table)
      ensures forall ip :: ip in table <==> ip in old(table) && (ok ==> now < old(table)[ip])
      ensures forall ip :: ip in table ==> table[ip] == old(table)[ip]
    {
      if ok {
        table := map ip | ip in table && !(table[ip] <= now) :: table[ip];
      }
    }
  }

  class IPBanGuard {
    const store: BanStore
    var maxAttempts: int
    var banDuration: int
    var failures: map<Ip, nat>
    var banned: Table

    ghost function View(clock: int): State
      reads this, store
    {
      State(maxAttempts, banDuration, failures, banned, store.table, clock)
    }

    /** NewIPBanGuard when the bans could be read: a process begins on the table that is there. */
    constructor (store: BanStore, maxAttempts: int, banDuration: int, now: int)
      ensures this.store == store
      ensures View(now) == Begin(maxAttempts, banDuration, store.table, now)
      ensures this.maxAttempts == maxAttempts && this.banDuration == banDuration && failures == map[]
      ensures forall ip :: ip in banned <==> ip in store.table && now < store.table[ip] * SECOND
    {
      this.store, this.maxAttempts, this.banDuration := store, maxAttempts, banDuration;
      failures := map[];
      banned := map[];
      new;
      var active := store.LoadActive(Unix(now));
      banned := active;
    }

    /** NewIPBanGuard: no guard when the bans cannot be read. */
    static method Create(store: BanStore, maxAttempts: int, banDuration: int, now: int, readOk: bool)
      returns (g: Option<IPBanGuard>)
      ensures g.Some? == readOk
      ensures readOk ==> fresh(g.value) && g.value.store == store &&
                         g.value.View(now) == Begin(maxAttempts, banDuration, store.table, now)
    {
      if !readOk {
        return None;
      }
      var guard := new IPBanGuard(store, maxAttempts, banDuration, now);
      return Some(guard);
    }

    method IsBanned(ip: Ip, now: int, later: int, deleteOk: bool, ghost clock: int) returns (r: bool)
      modifies this`banned, store
      ensures r == Answer(old(View(clock)), ip, now)
      ensures r <==> ip in old(banned) && now < old(banned)[ip] * SECOND
      ensures banned == if r then old(banned) else old(banned) - {ip}
      ensures forall other :: other in store.table <==>
                              other in old(store.table) &&
                              (ip in old(banned) && !r && deleteOk ==> later < old(store.table)[other] * SECOND)
      ensures View(Apply(old(View(clock)), Banned(ip, now, later, deleteOk)).clock) ==
              Apply(old(View(clock)), Banned(ip, now, later, deleteOk))
    {
      if ip !in banned {
        return false;
      }
      if Unix(now) >= banned[ip] {
        banned := banned - {ip};
        store.DeleteExpiredBans(Unix(later), deleteOk);
        return false;
      }
      return true;
    }

    method RecordFailure(ip: Ip, now: int, writeOk: bool, ghost clock: int)
      modifies this`failures, this`banned, store
      ensures View(Apply(old(View(clock)), Fail(ip, now, writeOk)).clock) == Apply(old(View(clock)), Fail(ip, now, writeOk))
      ensures var n := if ip in old(failures) then old(failures)[ip] + 1 else 1;
              if n < maxAttempts then failures == old(failures)[ip := n] && banned == old(banned)
              else ip !in failures && ip in banned && banned[ip] * SECOND <= now + banDuration < (banned[ip] + 1) * SECOND
    {
      ghost var s := View(clock);
      var n := if ip in failures then failures[ip] + 1 else 1;
      failures := failures[ip := n];
      if n < maxAttempts {
        return;
      }
      assert failures - {ip} == s.failures - {ip};
      BanAddress(ip, now, writeOk, clock);
    }

    method BanAddress(ip: Ip, now: int, writeOk: bool, ghost clock: int)
      modifies this`failures, this`banned, store
      ensures View(now) == BanNow(old(View(clock)), ip, now, writeOk)
      ensures ip !in failures && ip in banned && banned[ip] * SECOND <= now + banDuration < (banned[ip] + 1) * SECOND
      ensures store.table == if writeOk then old(store.table)[ip := banned[ip]] else old(store.table)
    {
      var until := Unix(now + banDuration);
      banned := banned[ip := until];
      failures := failures - {ip};
      store.BanIP(ip, until, writeOk);
    }

    method SetLimits(maxAttempts: int, banDuration: int, ghost clock: int)
      modifies this`maxAttempts, this`banDuration
      ensures View(clock) == Apply(old(View(clock)), SetThresholds(maxAttempts, banDuration))
      ensures this.maxAttempts == maxAttempts && this.banDuration == banDuration
    {
      this.maxAttempts, this.banDuration := maxAttempts, banDuration;
    }

    method ResetFailures(ip: Ip, ghost clock: int)
      modifies this`failures
      ensures View(clock) == Apply(old(View(clock)), Reset(ip))
      ensures failures == old(failures) - {ip}
    {
      failures := failures - {ip};
    }
  }
}
