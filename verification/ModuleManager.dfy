/** internal/module/{registry,manager}.go and internal/store/modules.go: which panel modules are on,
    kept both in memory and in a table, with dependencies between modules. */
module ModuleManager {
  type Id = string

  /** The static description of a module (Module.Meta). */
  datatype Meta = Meta(id: Id, requiresIds: seq<Id>, alwaysOn: bool)

  /** Modules by id, as Registry holds them. */
  type Modules = m: map<Id, Meta> | forall id :: id in m ==> m[id].id == id

  // ---------- What the operations do to the state ----------

  /** The enabled set in memory and the module_state table. */
  datatype State = State(enabled: set<Id>, table: map<Id, bool>)

  predicate DependenciesOn(ms: Modules, id: Id, enabled: set<Id>)
    requires id in ms
  {
    forall d :: d in ms[id].requiresIds ==> d in enabled
  }

  predicate RequiredByOther(ms: Modules, id: Id, enabled: set<Id>) {
    exists other :: other in ms && other in enabled && id in ms[other].requiresIds
  }

  /** An administrator's call with the outcome of what it runs: Start or Stop, and the table write. */
  datatype Op = Enable(id: Id, runs: bool, writes: bool) | Disable(id: Id, runs: bool, writes: bool)

  predicate Succeeds(ms: Modules, s: State, op: Op) {
    match op
    case Enable(id, runs, writes) =>
      id in ms && (id in s.enabled || (DependenciesOn(ms, id, s.enabled) && runs && writes))
    case Disable(id, runs, writes) =>
      id in ms && !ms[id].alwaysOn &&
      (id !in s.enabled || (!RequiredByOther(ms, id, s.enabled) && runs && writes))
  }

  function Apply(ms: Modules, s: State, op: Op): State {
    if !Succeeds(ms, s, op) then s
    else match op
      case Enable(id, _, _) => if id in s.enabled then s else State(s.enabled + {id}, s.table[id := true])
      case Disable(id, _, _) => if id !in s.enabled then s else State(s.enabled - {id}, s.table[id := false])
  }

  function Run(ms: Modules, s: State, ops: seq<Op>): State
    decreases |ops|
  {
    if ops == [] then s else Run(ms, Apply(ms, s, ops[0]), ops[1..])
  }

  // ---------- What a restart wants and what it can reach ----------

  /** AlwaysOn modules and those the table has as enabled. */
  function Wanted(ms: Modules, table: map<Id, bool>): set<Id> {
    set id | id in ms && (ms[id].alwaysOn || (id in table && table[id]))
  }

  /** The wanted modules whose dependencies are all in `s`. */
  function Ready(ms: Modules, want: set<Id>, s: set<Id>): set<Id> {
    set id | id in want && id in ms && DependenciesOn(ms, id, s)
  }

  /** Rounds of enabling everything that has become ready. */
  function Closure(ms: Modules, want: set<Id>, s: set<Id>): set<Id>
    decreases want - s
  {
    var ready := Ready(ms, want, s) - s;
    if ready == {} then s
    else
      assert want - (s + ready) < want - s by {
        var x :| x in ready;
        assert x in want - s && x !in want - (s + ready);
      }
      Closure(ms, want, s + ready)
  }

  function Reachable(ms: Modules, want: set<Id>): set<Id> {
    Closure(ms, want, {})
  }

  /** `s` is the least set that contains every wanted module whose dependencies it contains. */
  ghost predicate IsLeastFixpoint(ms: Modules, want: set<Id>, s: set<Id>) {
    Ready(ms, want, s) == s &&
    forall t: set<Id> :: Ready(ms, want, t) <= t ==> s <= t
  }

  lemma {:induction false} ClosureLaws(ms: Modules, want: set<Id>, s: set<Id>, t: set<Id>)
    requires s <= Ready(ms, want, s)
    ensures s <= Closure(ms, want, s)
    ensures Ready(ms, want, Closure(ms, want, s)) == Closure(ms, want, s)
    ensures s <= t && Ready(ms, want, t) <= t ==> Closure(ms, want, s) <= t
    decreases want - s
  {
    var ready := Ready(ms, want, s) - s;
    if ready != {} {
      assert want - (s + ready) < want - s by {
        var x :| x in ready;
        assert x in want - s && x !in want - (s + ready);
      }
      assert Ready(ms, want, s) <= Ready(ms, want, s + ready);
      ClosureLaws(ms, want, s + ready, t);
      if s <= t && Ready(ms, want, t) <= t {
        assert Ready(ms, want, s) <= Ready(ms, want, t);
      }
    } else {
      assert Ready(ms, want, s) == s by {
        forall x | x in Ready(ms, want, s) ensures x in s { assert x !in ready; }
      }
    }
  }

  lemma ReachableIsLeastFixpoint(ms: Modules, want: set<Id>)
    ensures IsLeastFixpoint(ms, want, Reachable(ms, want))
  {
    forall t: set<Id>
      ensures Ready(ms, want, t) <= t ==> Reachable(ms, want) <= t
    {
      ClosureLaws(ms, want, {}, t);
    }
    ClosureLaws(ms, want, {}, {});
  }

  /** A set grown by ready members only stays below the reachable set, and is it once nothing is ready. */
  lemma GrowthReaches(ms: Modules, want: set<Id>, s: set<Id>)
    requires s <= Ready(ms, want, s)
    requires s <= Reachable(ms, want)
    ensures Ready(ms, want, s) <= Reachable(ms, want)
    ensures Ready(ms, want, s) <= s ==> s == Reachable(ms, want)
  {
    ReachableIsLeastFixpoint(ms, want);
    var all := Reachable(ms, want);
    assert Ready(ms, want, s) <= Ready(ms, want, all);
  }

  // ---------- The restart round trip ----------

  /** The members of `order` are on, each after everything it requires. */
  predicate DependencyOrder(ms: Modules, order: seq<Id>) {
    forall i :: 0 <= i < |order| ==>
                  order[i] in ms && forall d :: d in ms[order[i]].requiresIds ==> d in order[..i]
  }

  ghost predicate Orderable(ms: Modules, enabled: set<Id>) {
    exists order: seq<Id> :: Lists(order, enabled) && DependencyOrder(ms, order)
  }

  ghost predicate Lists(order: seq<Id>, ids: set<Id>) {
    forall id :: id in order <==> id in ids
  }

  /** The table tells of every registered module whether it is on, and the always-on ones are. */
  predicate Agree(ms: Modules, s: State) {
    s.enabled == Wanted(ms, s.table)
  }

  ghost predicate Consistent(ms: Modules, s: State) {
    Agree(ms, s) && Orderable(ms, s.enabled)
  }

  lemma OrderGrows(ms: Modules, order: seq<Id>, id: Id)
    requires DependencyOrder(ms, order) && id in ms && forall d :: d in ms[id].requiresIds ==> d in order
    ensures DependencyOrder(ms, order + [id])
  {
    var longer := order + [id];
    assert forall i :: 0 <= i < |order| ==> longer[..i] == order[..i];
    assert longer[..|order|] == order;
  }

  lemma EnableKeepsOrder(ms: Modules, enabled: set<Id>, id: Id)
    requires Orderable(ms, enabled) && id in ms && DependenciesOn(ms, id, enabled)
    ensures Orderable(ms, enabled + {id})
  {
    var order: seq<Id> :| Lists(order, enabled) && DependencyOrder(ms, order);
    OrderGrows(ms, order, id);
    assert Lists(order + [id], enabled + {id});
  }

  function Without(order: seq<Id>, id: Id): seq<Id> {
    if order == [] then []
    else Without(order[..|order| - 1], id) + if order[|order| - 1] == id then [] else [order[|order| - 1]]
  }

  lemma {:induction false} WithoutKeepsOrder(ms: Modules, order: seq<Id>, id: Id)
    requires DependencyOrder(ms, order)
    requires forall o :: o in order && o != id ==> o in ms && id !in ms[o].requiresIds
    ensures DependencyOrder(ms, Without(order, id))
    ensures forall o :: o in Without(order, id) <==> o in order && o != id
  {
    if order != [] {
      var n := |order| - 1;
      var front, last := order[..n], order[n];
      assert DependencyOrder(ms, front) by {
        assert forall i :: 0 <= i < n ==> front[..i] == order[..i];
      }
      WithoutKeepsOrder(ms, front, id);
      assert order == front + [last];
      if last != id {
        assert last in order;
        OrderGrows(ms, Without(front, id), last);
      } else {
        assert Without(front, id) + [] == Without(front, id);
      }
    }
  }

  lemma DisableKeepsOrder(ms: Modules, enabled: set<Id>, id: Id)
    requires Orderable(ms, enabled) && !RequiredByOther(ms, id, enabled)
    ensures Orderable(ms, enabled - {id})
  {
    var order: seq<Id> :| Lists(order, enabled) && DependencyOrder(ms, order);
    forall o | o in order && o != id
      ensures o in ms && id !in ms[o].requiresIds
    {
      var i :| 0 <= i < |order| && order[i] == o;
    }
    WithoutKeepsOrder(ms, order, id);
    assert Lists(Without(order, id), enabled - {id});
  }

  lemma OpKeepsConsistent(ms: Modules, s: State, op: Op)
    requires Consistent(ms, s)
    ensures Consistent(ms, Apply(ms, s, op))
  {
    if Succeeds(ms, s, op) {
      if op.Enable? && op.id !in s.enabled {
        EnableKeepsOrder(ms, s.enabled, op.id);
      } else if op.Disable? && op.id in s.enabled {
        DisableKeepsOrder(ms, s.enabled, op.id);
      }
    }
  }

  lemma {:induction false} RunKeepsConsistent(ms: Modules, s: State, ops: seq<Op>)
    requires Consistent(ms, s)
    ensures Consistent(ms, Run(ms, s, ops))
    decreases |ops|
  {
    if ops != [] {
      OpKeepsConsistent(ms, s, ops[0]);
      RunKeepsConsistent(ms, Apply(ms, s, ops[0]), ops[1..]);
    }
  }

  /** A set that has a dependency order is reached completely when it is what is wanted. */
  lemma OrderIsReached(ms: Modules, want: set<Id>, order: seq<Id>, i: nat)
    requires Lists(order, want) && DependencyOrder(ms, order) && i <= |order|
    ensures forall id :: id in order[..i] ==> id in Reachable(ms, want)
  {
    if i > 0 {
      OrderIsReached(ms, want, order, i - 1);
      ReachableIsLeastFixpoint(ms, want);
      assert order[i - 1] in order;
      assert order[i - 1] in Ready(ms, want, Reachable(ms, want));
      assert order[..i] == order[..i - 1] + [order[i - 1]];
    }
  }

  lemma OrderableIsReached(ms: Modules, want: set<Id>)
    requires Orderable(ms, want)
    ensures Reachable(ms, want) == want
  {
    var order: seq<Id> :| Lists(order, want) && DependencyOrder(ms, order);
    OrderIsReached(ms, want, order, |order|);
    assert order[..|order|] == order;
    ReachableIsLeastFixpoint(ms, want);
  }

  /** What is reached has a dependency order: the order in which the rounds enabled it. */
  lemma {:induction false} ClosureIsOrderable(ms: Modules, want: set<Id>, s: set<Id>)
    requires Orderable(ms, s)
    ensures Orderable(ms, Closure(ms, want, s))
    decreases want - s
  {
    var ready := Ready(ms, want, s) - s;
    if ready != {} {
      assert want - (s + ready) < want - s by {
        var x :| x in ready;
        assert x in want - s && x !in want - (s + ready);
      }
      AddReady(ms, s, s, ready);
      ClosureIsOrderable(ms, want, s + ready);
    }
  }

  lemma {:induction false} AddReady(ms: Modules, base: set<Id>, s: set<Id>, ready: set<Id>)
    requires Orderable(ms, s) && base <= s
    requires forall id :: id in ready ==> id in ms && DependenciesOn(ms, id, base)
    ensures Orderable(ms, s + ready)
    decreases ready
  {
    if ready == {} {
      assert s + ready == s;
    } else {
      var id :| id in ready;
      EnableKeepsOrder(ms, s, id);
      AddReady(ms, base, s + {id}, ready - {id});
      assert s + {id} + (ready - {id}) == s + ready;
    }
  }

  /** The table after every wanted module was enabled and its row written. */
  function Recorded(table: map<Id, bool>, enabled: set<Id>): map<Id, bool> {
    table + map id | id in enabled :: true
  }

  lemma RecordedAgrees(ms: Modules, table: map<Id, bool>)
    ensures Wanted(ms, Recorded(table, Wanted(ms, table))) == Wanted(ms, table)
  {
  }

  /** After a restore that succeeded and any calls whatsoever a new process finds a table from which a restore
      reaches exactly the modules that were on. */
  lemma RestartRoundTrip(ms: Modules, table: map<Id, bool>, ops: seq<Op>)
    requires Reachable(ms, Wanted(ms, table)) == Wanted(ms, table)
    ensures var want := Wanted(ms, table);
            var end := Run(ms, State(want, Recorded(table, want)), ops);
            Wanted(ms, end.table) == end.enabled && Reachable(ms, end.enabled) == end.enabled
  {
    var want := Wanted(ms, table);
    var restored := State(want, Recorded(table, want));
    RecordedAgrees(ms, table);
    assert Orderable(ms, {}) by {
      assert Lists([], {}) && DependencyOrder(ms, []);
    }
    ClosureIsOrderable(ms, want, {});
    RunKeepsConsistent(ms, restored, ops);
    OrderableIsReached(ms, Run(ms, restored, ops).enabled);
  }

  // ---------- Restore, step by step ----------

  /** Between two steps of Restore: what is on was wanted, became ready and is recorded in the table. */
  predicate Restoring(ms: Modules, goal: set<Id>, rows: map<Id, bool>, s: State, want: set<Id>) {
    s.enabled + want == goal && s.enabled !! want && goal <= ms.Keys &&
    s.enabled <= Ready(ms, goal, s.enabled) && s.enabled <= Reachable(ms, goal) &&
    s.table == Recorded(rows, s.enabled)
  }

  lemma ReadyGrows(ms: Modules, want: set<Id>, s: set<Id>, t: set<Id>)
    requires s <= t
    ensures Ready(ms, want, s) <= Ready(ms, want, t)
  {
  }

  lemma RecordedOne(rows: map<Id, bool>, enabled: set<Id>, id: Id)
    ensures Recorded(rows, enabled)[id := true] == Recorded(rows, enabled + {id})
  {
  }

  lemma RestoringStep(ms: Modules, goal: set<Id>, rows: map<Id, bool>, s: State, want: set<Id>, id: Id)
    requires Restoring(ms, goal, rows, s, want) && id in want && DependenciesOn(ms, id, s.enabled)
    ensures Restoring(ms, goal, rows, State(s.enabled + {id}, s.table[id := true]), want - {id})
  {
    var on := s.enabled + {id};
    assert on <= Reachable(ms, goal) && on <= Ready(ms, goal, on) by {
      GrowthReaches(ms, goal, s.enabled);
      assert id in Ready(ms, goal, s.enabled);
      ReadyGrows(ms, goal, s.enabled, on);
    }
    assert Recorded(rows, s.enabled)[id := true] == Recorded(rows, on) by {
      RecordedOne(rows, s.enabled, id);
    }
    assert on + (want - {id}) == goal;
  }

  lemma RestoringEnds(ms: Modules, goal: set<Id>, rows: map<Id, bool>, s: State, want: set<Id>)
    requires Restoring(ms, goal, rows, s, want)
    requires want == {} || Ready(ms, goal, s.enabled) <= s.enabled
    ensures s.enabled == Reachable(ms, goal)
    ensures want == {} <==> s.enabled == goal
  {
    ReachableIsLeastFixpoint(ms, goal);
    if want != {} {
      GrowthReaches(ms, goal, s.enabled);
      var x :| x in want;
      assert x in goal && x !in s.enabled;
    } else {
      assert s.enabled == goal;
    }
  }

  /** What Restore promises, with `rows` the table it found: every enabled module is recorded and
      reachable; success means all that was wanted; and when nothing fails to start or to be written,
      the modules reached are on in any case and success means that they are all that was wanted. */
  predicate Restored(ms: Modules, rows: map<Id, bool>, s: State, ok: bool, nothingFails: bool) {
    var goal := Wanted(ms, rows);
    s.table == Recorded(rows, s.enabled) && s.enabled <= Reachable(ms, goal) &&
    (ok ==> s.enabled == goal) &&
    (nothingFails ==> s.enabled == Reachable(ms, goal) && (ok <==> Reachable(ms, goal) == goal))
  }

  /** Main theorem: after a restore that succeeded and any calls whatsoever - refused, failing or not -
      a restart restores exactly the modules that were on, and reports success. */
  lemma RestartRestoresTheSame(ms: Modules, table: map<Id, bool>, start: State, ops: seq<Op>, again: State, ok: bool)
    requires Restored(ms, table, start, true, false)
    requires Restored(ms, Run(ms, start, ops).table, again, ok, true)
    ensures ok && again.enabled == Run(ms, start, ops).enabled
  {
    ReachableIsLeastFixpoint(ms, Wanted(ms, table));
    RestartRoundTrip(ms, table, ops);
  }

  // ---------- The registry, the table and the manager as the program has them ----------

  class Registry {
    var modules: map<Id, Meta>
    var order: seq<Id>

    ghost predicate Valid()
      reads this
    {
      (forall id :: id in modules ==> modules[id].id == id) &&
      (forall id :: id in modules <==> id in order) &&
      forall i, j :: 0 <= i < j < |order| ==> order[i] != order[j]
    }

    constructor ()
      ensures Valid() && modules == map[] && order == []
    {
      modules, order := map[], [];
    }

    /** `ok` is false where the source panics. */
    method Register(m: Meta) returns (ok: bool)
      requires Valid()
      modifies this
      ensures Valid() && ok == (m.id !in old(modules))
      ensures modules == if ok then old(modules)[m.id := m] else old(modules)
      ensures order == if ok then old(order) + [m.id] else old(order)
    {
      if m.id in modules { return false; }
      modules := modules[m.id := m];
      order := order + [m.id];
      return true;
    }

    method All() returns (out: seq<Meta>)
      requires Valid()
      ensures |out| == |order| && forall i :: 0 <= i < |out| ==> out[i] == modules[order[i]]
    {
      out := [];
      for i := 0 to |order|
        invariant |out| == i && forall k :: 0 <= k < i ==> out[k] == modules[order[k]]
      {
        assert order[i] in order;
        out := out + [modules[order[i]]];
      }
    }
  }

  /** The module_state table. A statement takes effect as a whole or fails without any. */
  class ModuleTable {
    var rows: map<Id, bool>

    constructor (rows: map<Id, bool>)
      ensures this.rows == rows
    {
      this.rows := rows;
    }

    method SetModuleEnabled(id: Id, enabled: bool, writes: bool) returns (ok: bool)
      modifies this
      ensures ok == writes
      ensures rows == if writes then old(rows)[id := enabled] else old(rows)
    {
      if writes {
        rows := rows[id := enabled];
      }
      return writes;
    }
  }

  datatype Health = Health(ok: bool, reason: string)

  /** Why a call was refused or failed. */
  datatype Outcome = Done | UnknownId | AlwaysOn | DependencyMissing | StillRequired | RunFailed | WriteFailed

  class Manager {
    const reg: Registry
    const store: ModuleTable
    var enabled: map<Id, bool>
    var health: map<Id, Health>

    constructor (reg: Registry, store: ModuleTable)
      ensures this.reg == reg && this.store == store && enabled == map[] && health == map[]
    {
      this.reg, this.store, enabled, health := reg, store, map[], map[];
    }

    predicate IsEnabled(id: Id)
      reads this
    {
      id in enabled && enabled[id]
    }

    function On(): set<Id>
      reads this
    {
      set id | id in enabled && enabled[id]
    }

    function Abstract(): State
      reads this, store
    {
      State(On(), store.rows)
    }

    ghost predicate Valid()
      reads this, reg, store
    {
      reg.Valid() && On() <= reg.modules.Keys
    }

    method Enable(id: Id, check: Health, runs: bool, writes: bool) returns (out: Outcome)
      requires Valid()
      modifies this, store
      ensures Valid()
      ensures Abstract() == Apply(reg.modules, old(Abstract()), Op.Enable(id, runs, writes))
      ensures out.Done? == Succeeds(reg.modules, old(Abstract()), Op.Enable(id, runs, writes))
      ensures health == if id !in old(On()) && id in On() then old(health)[id := check] else old(health)
      ensures out.UnknownId? <==> id !in reg.modules
      ensures out.DependencyMissing? <==>
              id in reg.modules && id !in old(On()) && exists d :: d in reg.modules[id].requiresIds && d !in old(On())
      ensures id in reg.modules && id !in old(On()) && (forall d :: d in reg.modules[id].requiresIds ==> d in old(On())) ==>
                out == if !runs then RunFailed else if !writes then WriteFailed else Done
      ensures id in old(On()) ==> out.Done?
      ensures On() == if out.Done? then old(On()) + {id} else old(On())
      ensures store.rows == if out.Done? && id !in old(On()) then old(store.rows)[id := true] else old(store.rows)
    {
      if id !in reg.modules { return UnknownId; }
      var m := reg.modules[id];
      if IsEnabled(id) { return Done; }
      for i := 0 to |m.requiresIds|
        invariant forall d :: d in m.requiresIds[..i] ==> d in On()
      {
        if !IsEnabled(m.requiresIds[i]) {
          assert m.requiresIds[i] in m.requiresIds && m.requiresIds[i] !in On();
          return DependencyMissing;
        }
      }
      assert m.requiresIds[..|m.requiresIds|] == m.requiresIds;
      if !runs { return RunFailed; }
      var stored := store.SetModuleEnabled(id, true, writes);
      if !stored { return WriteFailed; }
      ghost var before := On();
      enabled := enabled[id := true];
      health := health[id := check];
      assert On() == before + {id};
      return Done;
    }

    method Disable(id: Id, runs: bool, writes: bool) returns (out: Outcome)
      requires Valid()
      modifies this, store
      ensures Valid()
      ensures Abstract() == Apply(reg.modules, old(Abstract()), Op.Disable(id, runs, writes))
      ensures out.Done? == Succeeds(reg.modules, old(Abstract()), Op.Disable(id, runs, writes))
      ensures health == old(health)
      ensures out.UnknownId? <==> id !in reg.modules
      ensures out.AlwaysOn? <==> id in reg.modules && reg.modules[id].alwaysOn
      ensures out.StillRequired? <==>
              id in reg.modules && !reg.modules[id].alwaysOn && id in old(On()) &&
              exists other :: other in reg.modules && other in old(On()) && id in reg.modules[other].requiresIds
      ensures id in old(On()) && !out.AlwaysOn? && !out.StillRequired? ==>
                out == if !runs then RunFailed else if !writes then WriteFailed else Done
      ensures id in reg.modules && !reg.modules[id].alwaysOn && id !in old(On()) ==> out.Done?
      ensures On() == if out.Done? then old(On()) - {id} else old(On())
      ensures store.rows == if out.Done? && id in old(On()) then old(store.rows)[id := false] else old(store.rows)
    {
      if id !in reg.modules { return UnknownId; }
      if reg.modules[id].alwaysOn { return AlwaysOn; }
      if !IsEnabled(id) { return Done; }
      var all := reg.All();
      for i := 0 to |all|
        invariant forall k :: 0 <= k < i && all[k].id in On() ==> id !in all[k].requiresIds
      {
        assert reg.order[i] in reg.order && all[i].id == reg.order[i];
        if IsEnabled(all[i].id) && id in all[i].requiresIds { return StillRequired; }
      }
      forall other | other in reg.modules && other in On()
        ensures id !in reg.modules[other].requiresIds
      {
        assert other in reg.order;
        var k :| 0 <= k < |reg.order| && reg.order[k] == other;
        assert all[k].id == other;
      }
      if !runs { return RunFailed; }
      var stored := store.SetModuleEnabled(id, false, writes);
      if !stored { return WriteFailed; }
      ghost var before := On();
      enabled := enabled[id := false];
      assert On() == before - {id};
      return Done;
    }

    method DependenciesReady(id: Id) returns (ready: bool)
      requires Valid() && id in reg.modules
      ensures ready <==> DependenciesOn(reg.modules, id, On())
    {
      ready := true;
      var deps := reg.modules[id].requiresIds;
      for i := 0 to |deps|
        invariant forall d :: d in deps[..i] ==> d in On()
      {
        if !IsEnabled(deps[i]) {
          assert deps[i] in deps && deps[i] !in On();
          return false;
        }
      }
      assert deps[..|deps|] == deps;
    }

    /** The ids Restore starts from. */
    method WantedIds() returns (want: set<Id>)
      requires Valid()
      ensures want == Wanted(reg.modules, store.rows)
    {
      want := {};
      var all := reg.All();
      for i := 0 to |all|
        invariant forall id :: id in want ==> id in Wanted(reg.modules, store.rows)
        invariant forall id :: id in Wanted(reg.modules, store.rows) && id in reg.order[..i] ==> id in want
      {
        var id := all[i].id;
        assert reg.order[i] in reg.order;
        assert reg.order[..i + 1] == reg.order[..i] + [reg.order[i]];
        if all[i].alwaysOn || (id in store.rows && store.rows[id]) {
          want := want + {id};
        }
      }
      assert reg.order[..|reg.order|] == reg.order;
    }

    /** One ready module: enable it and take it off the list. */
    method RestoreOne(id: Id, want: set<Id>, ghost goal: set<Id>, ghost rows: map<Id, bool>,
                      check: Health, runs: bool, writes: bool) returns (ok: bool)
      requires Valid() && Restoring(reg.modules, goal, rows, Abstract(), want)
      requires id in want && DependenciesOn(reg.modules, id, On())
      modifies this, store
      ensures Valid() && Restoring(reg.modules, goal, rows, Abstract(), if ok then want - {id} else want)
      ensures ok == (runs && writes)
    {
      RestoringStep(reg.modules, goal, rows, Abstract(), want, id);
      var out := Enable(id, check, runs, writes);
      return out.Done?;
    }

    /** One scan over the list, in any order, as ranging over a Go map gives it. */
    method RestoreRound(want0: set<Id>, ghost goal: set<Id>, ghost rows: map<Id, bool>,
                        check: Id -> Health, runs: Id -> bool, writes: Id -> bool)
      returns (want: set<Id>, progressed: bool, failed: bool)
      requires Valid() && Restoring(reg.modules, goal, rows, Abstract(), want0)
      modifies this, store
      ensures Valid() && Restoring(reg.modules, goal, rows, Abstract(), want)
      ensures failed ==> exists id :: !(runs(id) && writes(id))
      ensures progressed ==> want < want0
      ensures !progressed && !failed ==> Ready(reg.modules, goal, On()) <= On()
    {
      want, progressed, failed := want0, false, false;
      var pending := want0;
      ghost var on := On();
      while pending != {}
        invariant Valid() && Restoring(reg.modules, goal, rows, Abstract(), want) && pending <= want
        invariant if progressed then want < want0 else want == want0 && On() == on
        invariant !progressed ==> forall id :: id in want - pending ==> !DependenciesOn(reg.modules, id, on)
        decreases pending
      {
        var id :| id in pending;
        pending := pending - {id};
        var ready := DependenciesReady(id);
        if ready {
          var ok := RestoreOne(id, want, goal, rows, check(id), runs(id), writes(id));
          if !ok { failed := true; return; }
          want, progressed := want - {id}, true;
        }
      }
    }

    method RestoreAll(want0: set<Id>, ghost goal: set<Id>, ghost rows: map<Id, bool>,
                      check: Id -> Health, runs: Id -> bool, writes: Id -> bool)
      returns (ok: bool)
      requires Valid() && Restoring(reg.modules, goal, rows, Abstract(), want0)
      modifies this, store
      ensures Valid() && goal <= reg.modules.Keys
      ensures store.rows == Recorded(rows, On()) && On() <= Reachable(reg.modules, goal)
      ensures ok ==> On() == goal
      ensures (forall id :: runs(id) && writes(id)) ==>
                On() == Reachable(reg.modules, goal) && (ok <==> On() == goal)
    {
      var want := want0;
      while want != {}
        invariant Valid() && Restoring(reg.modules, goal, rows, Abstract(), want)
        decreases want
      {
        var progressed, failed;
        want, progressed, failed := RestoreRound(want, goal, rows, check, runs, writes);
        if failed { return false; }
        if !progressed {
          RestoringEnds(reg.modules, goal, rows, Abstract(), want);
          return want == {};
        }
      }
      RestoringEnds(reg.modules, goal, rows, Abstract(), want);
      return true;
    }

    /** Restore on a new manager. `readOk` tells whether the table can be read, `runs` and `writes` which modules
        start and whose row can be written. */
    method Restore(readOk: bool, check: Id -> Health, runs: Id -> bool, writes: Id -> bool) returns (ok: bool)
      requires Valid() && On() == {}
      modifies this, store
      ensures Valid()
      ensures Restored(reg.modules, old(store.rows), Abstract(), ok, readOk && forall id :: runs(id) && writes(id))
      ensures !readOk ==> !ok && Abstract() == old(Abstract())
    {
      assert Recorded(store.rows, {}) == store.rows;
      if !readOk {
        return false;
      }
      var want := WantedIds();
      ok := RestoreAll(want, want, store.rows, check, runs, writes);
    }
  }
}
