/** internal/auth/service.go and internal/store/tokens.go: rotating refresh tokens. Any number of Refresh, Logout
    and login calls run interleaved, one store statement at a time; a statement may fail, a call may stop
    anywhere and the process may restart. */
module RefreshTokens {
  import opened Text

  type TokenId = string
  type UserId = int
  type CallId = nat

  datatype Token = Token(user: UserId, expires: int, revoked: bool)

  /** The refresh_tokens table; the id is its primary key. */
  type Table = map<TokenId, Token>

  // ---------- The statements ----------

  /** GetValidRefreshToken: a token is still read in the second it expires. */
  predicate Readable(t: Table, id: TokenId, now: int) {
    id in t && !t[id].revoked && t[id].expires >= now
  }

  /** The WHERE clause of RevokeRefreshTokenIfActive: no longer in that second. */
  predicate Active(t: Table, id: TokenId, now: int) {
    id in t && !t[id].revoked && t[id].expires > now
  }

  function Revoked(t: Table, id: TokenId): Table {
    if id in t then t[id := t[id].(revoked := true)] else t
  }

  // ---------- The calls ----------

  /** Where one call stands. */
  datatype Call =
    | Asked(id: TokenId)                    // Refresh, nothing done yet
    | Validated(id: TokenId, user: UserId)  // the token was read
    | Won(id: TokenId, user: UserId)        // this call revoked it: only IssueFor is left
    | LoggingIn(user: UserId)               // IssueFor after a checked login
    | LoggingOut(id: TokenId)
    | Done(result: Option<TokenId>)

  /** A token was issued, for a login or in exchange for another one. */
  datatype Issue = Issue(id: TokenId, from: Option<TokenId>)

  /** `log` is the history of all tokens issued. */
  datatype State = State(table: Table, calls: map<CallId, Call>, log: seq<Issue>)

  datatype Step =
    | AskRefresh(c: CallId, id: TokenId)
    | AskLogin(c: CallId, user: UserId)
    | AskLogout(c: CallId, id: TokenId)
    | Validate(c: CallId, now: int)
    | Consume(c: CallId, now: int)
    | ConsumeUnsure(c: CallId, now: int)                // revoked, but reported as an error
    | Insert(c: CallId, id: TokenId, expires: int)      // refused when the id is taken
    | RevokeByLogout(c: CallId)
    | GiveUp(c: CallId)                                 // a statement failed, the user is gone, signing failed
    | Restart

  predicate Enabled(s: State, step: Step) {
    match step
    case AskRefresh(c, _) => c !in s.calls
    case AskLogin(c, _) => c !in s.calls
    case AskLogout(c, _) => c !in s.calls
    case Validate(c, _) => c in s.calls && s.calls[c].Asked?
    case Consume(c, _) => c in s.calls && s.calls[c].Validated?
    case ConsumeUnsure(c, _) => c in s.calls && s.calls[c].Validated?
    case Insert(c, _, _) => c in s.calls && (s.calls[c].Won? || s.calls[c].LoggingIn?)
    case RevokeByLogout(c) => c in s.calls && s.calls[c].LoggingOut?
    case GiveUp(c) => c in s.calls && !s.calls[c].Done?
    case Restart => true
  }

  function Goto(s: State, c: CallId, call: Call): State {
    s.(calls := s.calls[c := call])
  }

  function Origin(call: Call): Option<TokenId>
    requires call.Won? || call.LoggingIn?
  {
    if call.Won? then Some(call.id) else None
  }

  function Apply(s: State, step: Step): State
    requires Enabled(s, step)
  {
    match step
    case AskRefresh(c, id) => Goto(s, c, Asked(id))
    case AskLogin(c, user) => Goto(s, c, LoggingIn(user))
    case AskLogout(c, id) => Goto(s, c, LoggingOut(id))
    case Validate(c, now) =>
      var id := s.calls[c].id;
      if Readable(s.table, id, now) then Goto(s, c, Validated(id, s.table[id].user)) else Goto(s, c, Done(None))
    case Consume(c, now) =>
      var id := s.calls[c].id;
      if Active(s.table, id, now) then Goto(s, c, Won(id, s.calls[c].user)).(table := Revoked(s.table, id))
      else Goto(s, c, Done(None))
    case ConsumeUnsure(c, now) =>
      var id := s.calls[c].id;
      Goto(s, c, Done(None)).(table := if Active(s.table, id, now) then Revoked(s.table, id) else s.table)
    case Insert(c, id, expires) =>
      if id in s.table then Goto(s, c, Done(None))
      else
        var call := s.calls[c];
        State(s.table[id := Token(call.user, expires, false)], s.calls[c := Done(Some(id))],
              s.log + [Issue(id, Origin(call))])
    case RevokeByLogout(c) => Goto(s, c, Done(None)).(table := Revoked(s.table, s.calls[c].id))
    case GiveUp(c) => Goto(s, c, Done(None))
    case Restart => s.(calls := map[])
  }

  ghost predicate Run(s: State, steps: seq<Step>, end: State)
    decreases |steps|
  {
    if steps == [] then end == s
    else Enabled(s, steps[0]) && Run(Apply(s, steps[0]), steps[1..], end)
  }

  const EMPTY: State := State(map[], map[], [])

  // ---------- The invariant ----------

  /** No id is issued twice, every exchange is for a token issued before, and none is exchanged twice. */
  ghost predicate Linked(log: seq<Issue>) {
    (forall i, j :: 0 <= i < j < |log| ==> log[i].id != log[j].id) &&
    (forall j :: 0 <= j < |log| && log[j].from.Some? ==> IssuedBefore(log, log[j].from.value, j)) &&
    forall i, j :: 0 <= i < j < |log| && log[i].from.Some? ==> log[i].from != log[j].from
  }

  ghost predicate IssuedBefore(log: seq<Issue>, id: TokenId, n: nat) {
    exists i :: 0 <= i < n && i < |log| && log[i].id == id
  }

  predicate Exchanged(log: seq<Issue>, id: TokenId) {
    exists i :: 0 <= i < |log| && log[i].from == Some(id)
  }

  /** The table holds the tokens issued; those exchanged are revoked, and their successors are for the same user. */
  ghost predicate Stored(t: Table, log: seq<Issue>) {
    (forall id :: id in t <==> IssuedBefore(log, id, |log|)) &&
    forall i :: 0 <= i < |log| && log[i].from.Some? ==>
                  log[i].id in t && log[i].from.value in t && t[log[i].from.value].revoked &&
                  t[log[i].from.value].user == t[log[i].id].user
  }

  /** A token won is revoked, not exchanged yet, and won by one call alone. */
  ghost predicate Held(s: State) {
    (forall c :: c in s.calls && s.calls[c].Validated? ==>
                   s.calls[c].id in s.table && s.table[s.calls[c].id].user == s.calls[c].user) &&
    (forall c :: c in s.calls && s.calls[c].Won? ==>
                   s.calls[c].id in s.table && s.table[s.calls[c].id].revoked &&
                   s.table[s.calls[c].id].user == s.calls[c].user && !Exchanged(s.log, s.calls[c].id)) &&
    forall c, d :: c in s.calls && d in s.calls && s.calls[c].Won? && s.calls[d].Won? && c != d ==>
                     s.calls[c].id != s.calls[d].id
  }

  ghost predicate Invariant(s: State) {
    Linked(s.log) && Stored(s.table, s.log) && Held(s)
  }

  lemma InsertKeepsLog(s: State, c: CallId, id: TokenId, expires: int)
    requires Invariant(s) && Enabled(s, Insert(c, id, expires)) && id !in s.table
    ensures Linked(Apply(s, Insert(c, id, expires)).log)
  {
    var next := Apply(s, Insert(c, id, expires));
    var n := |s.log|;
    assert forall i :: 0 <= i < n ==> next.log[i] == s.log[i];
    forall j | 0 <= j <= n && next.log[j].from.Some?
      ensures IssuedBefore(next.log, next.log[j].from.value, j)
    {
      var from := next.log[j].from.value;
      assert j < n ==> IssuedBefore(s.log, from, j);
      assert j == n ==> IssuedBefore(s.log, from, n);
      var i :| 0 <= i < j && i < n && s.log[i].id == from;
      assert next.log[i].id == from;
    }
    forall i | 0 <= i < n
      ensures s.log[i].id != id
    {
      assert IssuedBefore(s.log, s.log[i].id, n);
    }
  }

  lemma InsertKeepsTable(s: State, c: CallId, id: TokenId, expires: int)
    requires Invariant(s) && Enabled(s, Insert(c, id, expires)) && id !in s.table
    ensures Stored(Apply(s, Insert(c, id, expires)).table, Apply(s, Insert(c, id, expires)).log)
  {
    var next := Apply(s, Insert(c, id, expires));
    var n := |s.log|;
    assert next.log[n].id == id && forall i :: 0 <= i < n ==> next.log[i] == s.log[i];
    forall other
      ensures other in next.table <==> IssuedBefore(next.log, other, n + 1)
    {
      if other in s.table {
        var i :| 0 <= i < n && s.log[i].id == other;
        assert next.log[i].id == other;
      } else {
        assert !IssuedBefore(s.log, other, n);
        assert forall i :: 0 <= i < n ==> next.log[i].id != other;
      }
    }
  }

  lemma InsertKeepsCalls(s: State, c: CallId, id: TokenId, expires: int)
    requires Invariant(s) && Enabled(s, Insert(c, id, expires)) && id !in s.table
    ensures Held(Apply(s, Insert(c, id, expires)))
  {
    var next := Apply(s, Insert(c, id, expires));
    var n := |s.log|;
    assert forall i :: 0 <= i < n ==> next.log[i] == s.log[i];
    forall d | d in next.calls && next.calls[d].Won?
      ensures !Exchanged(next.log, next.calls[d].id)
    {
      assert d != c && s.calls[d] == next.calls[d];
      assert !Exchanged(s.log, s.calls[d].id);
      assert next.log[n].from != Some(s.calls[d].id);
    }
  }

  lemma RevokeKeeps(s: State, id: TokenId)
    requires Invariant(s)
    ensures Invariant(s.(table := Revoked(s.table, id)))
  {
  }

  /** A token still active cannot have been exchanged, nor be held by another call. */
  lemma ConsumeKeeps(s: State, c: CallId, now: int)
    requires Invariant(s) && Enabled(s, Consume(c, now))
    ensures Invariant(Apply(s, Consume(c, now)))
  {
    var id := s.calls[c].id;
    if Active(s.table, id, now) {
      assert !Exchanged(s.log, id);
      RevokeKeeps(s, id);
    }
  }

  lemma GotoKeeps(s: State, c: CallId, call: Call)
    requires Invariant(s) && !call.Won?
    requires call.Validated? ==> call.id in s.table && s.table[call.id].user == call.user
    ensures Invariant(Goto(s, c, call))
  {
  }

  lemma InsertKeeps(s: State, c: CallId, id: TokenId, expires: int)
    requires Invariant(s) && Enabled(s, Insert(c, id, expires))
    ensures Invariant(Apply(s, Insert(c, id, expires)))
  {
    if id in s.table {
      GotoKeeps(s, c, Done(None));
    } else {
      InsertKeepsLog(s, c, id, expires);
      InsertKeepsTable(s, c, id, expires);
      InsertKeepsCalls(s, c, id, expires);
    }
  }

  lemma StepKeeps(s: State, step: Step)
    requires Invariant(s) && Enabled(s, step)
    ensures Invariant(Apply(s, step))
  {
    match step
    case Consume(c, now) => ConsumeKeeps(s, c, now);
    case ConsumeUnsure(c, now) =>
      RevokeKeeps(s, s.calls[c].id);
      GotoKeeps(s, c, Done(None));
      GotoKeeps(s.(table := Revoked(s.table, s.calls[c].id)), c, Done(None));
    case RevokeByLogout(c) =>
      RevokeKeeps(s, s.calls[c].id);
      GotoKeeps(s.(table := Revoked(s.table, s.calls[c].id)), c, Done(None));
    case Insert(c, id, expires) => InsertKeeps(s, c, id, expires);
    case Restart =>
    case _ => GotoKeeps(s, step.c, Apply(s, step).calls[step.c]);
  }

  lemma {:induction false} RunKeeps(s: State, steps: seq<Step>, end: State)
    requires Invariant(s) && Run(s, steps, end)
    ensures Invariant(end)
    decreases |steps|
  {
    if steps != [] {
      StepKeeps(s, steps[0]);
      RunKeeps(Apply(s, steps[0]), steps[1..], end);
    }
  }

  // ---------- The tokens of one login ----------

  /** The tokens that go back to the login whose token is `root`, in the order they were issued. */
  function Family(log: seq<Issue>, root: TokenId): seq<TokenId> {
    if log == [] then []
    else
      var front, last := Family(log[..|log| - 1], root), log[|log| - 1];
      if last.from.None? then if last.id == root then [root] else front
      else if last.from.value in front then front + [last.id]
      else front
  }

  ghost predicate LoginIn(log: seq<Issue>, root: TokenId) {
    exists i :: 0 <= i < |log| && log[i] == Issue(root, None)
  }

  /** Every token of `ids` but the first was issued in exchange for the one before it. */
  ghost predicate Path(log: seq<Issue>, ids: seq<TokenId>) {
    forall k :: 0 < k < |ids| ==> Issue(ids[k], Some(ids[k - 1])) in log
  }

  lemma LinkedFront(log: seq<Issue>)
    requires Linked(log) && log != []
    ensures Linked(log[..|log| - 1])
  {
    var n := |log| - 1;
    forall j | 0 <= j < n && log[..n][j].from.Some?
      ensures IssuedBefore(log[..n], log[..n][j].from.value, j)
    {
      assert IssuedBefore(log, log[j].from.value, j);
      var i :| 0 <= i < j && log[i].id == log[j].from.value;
      assert log[..n][i].id == log[j].from.value;
    }
  }

  /** Whoever has a successor in a path can have no second one. */
  lemma OnlyLastIsExchanged(log: seq<Issue>, ids: seq<TokenId>, k: nat)
    requires log != [] && Linked(log) && Path(log[..|log| - 1], ids) && k < |ids|
    ensures k < |ids| - 1 ==> log[|log| - 1].from != Some(ids[k])
  {
    if k < |ids| - 1 {
      var next := Issue(ids[k + 1], Some(ids[k]));
      assert next in log[..|log| - 1];
      var i :| 0 <= i < |log| - 1 && log[i] == next;
    }
  }

  lemma {:induction false} FamilyStarts(log: seq<Issue>, root: TokenId)
    ensures Family(log, root) != [] <==> LoginIn(log, root)
    ensures Family(log, root) != [] ==> Family(log, root)[0] == root
  {
    if log != [] {
      var n := |log| - 1;
      FamilyStarts(log[..n], root);
      assert LoginIn(log, root) <==> LoginIn(log[..n], root) || log[n] == Issue(root, None) by {
        if LoginIn(log[..n], root) {
          LoginStays(log, root);
        }
      }
    }
  }

  lemma IssuedStays(log: seq<Issue>, id: TokenId)
    requires log != [] && IssuedBefore(log[..|log| - 1], id, |log| - 1)
    ensures IssuedBefore(log, id, |log|)
  {
    var i :| 0 <= i < |log| - 1 && log[..|log| - 1][i].id == id;
    assert log[i].id == id;
  }

  lemma {:induction false} FamilyIssued(log: seq<Issue>, root: TokenId, id: TokenId)
    requires id in Family(log, root)
    ensures IssuedBefore(log, id, |log|)
  {
    var n := |log| - 1;
    if id == log[n].id {
      assert log[n].id == id;
    } else {
      FamilyIssued(log[..n], root, id);
      IssuedStays(log, id);
    }
  }

  lemma PathStays(log: seq<Issue>, ids: seq<TokenId>)
    requires log != [] && Path(log[..|log| - 1], ids)
    ensures Path(log, ids)
  {
    forall k | 0 < k < |ids|
      ensures Issue(ids[k], Some(ids[k - 1])) in log
    {
      assert Issue(ids[k], Some(ids[k - 1])) in log[..|log| - 1];
    }
  }

  lemma PathGrows(log: seq<Issue>, ids: seq<TokenId>, issue: Issue)
    requires Path(log, ids) && ids != [] && issue in log && issue.from == Some(ids[|ids| - 1])
    ensures Path(log, ids + [issue.id])
  {
    var more := ids + [issue.id];
    forall k | 0 < k < |more|
      ensures Issue(more[k], Some(more[k - 1])) in log
    {
      if k < |ids| {
        assert Issue(ids[k], Some(ids[k - 1])) in log;
      }
    }
  }

  lemma ExchangedIsLast(log: seq<Issue>, ids: seq<TokenId>)
    requires log != [] && Linked(log) && Path(log[..|log| - 1], ids)
    requires log[|log| - 1].from.Some? && log[|log| - 1].from.value in ids
    ensures log[|log| - 1].from == Some(ids[|ids| - 1])
  {
    var k :| 0 <= k < |ids| && ids[k] == log[|log| - 1].from.value;
    OnlyLastIsExchanged(log, ids, k);
  }

  lemma {:induction false} FamilyLinks(log: seq<Issue>, root: TokenId)
    requires Linked(log)
    ensures Path(log, Family(log, root))
  {
    if log != [] {
      var n := |log| - 1;
      var ids := Family(log[..n], root);
      LinkedFront(log);
      FamilyLinks(log[..n], root);
      PathStays(log, ids);
      if log[n].from.Some? && log[n].from.value in ids {
        ExchangedIsLast(log, ids);
        PathGrows(log, ids, log[n]);
      }
    }
  }

  lemma FamilyIsPath(log: seq<Issue>, root: TokenId)
    requires Linked(log)
    ensures Path(log, Family(log, root))
    ensures Family(log, root) != [] <==> LoginIn(log, root)
    ensures Family(log, root) != [] ==> Family(log, root)[0] == root
    ensures forall id :: id in Family(log, root) ==> IssuedBefore(log, id, |log|)
  {
    FamilyLinks(log, root);
    FamilyStarts(log, root);
    forall id | id in Family(log, root)
      ensures IssuedBefore(log, id, |log|)
    {
      FamilyIssued(log, root, id);
    }
  }

  lemma LoginStays(log: seq<Issue>, root: TokenId)
    requires log != [] && LoginIn(log[..|log| - 1], root)
    ensures LoginIn(log, root)
  {
    var j :| 0 <= j < |log| - 1 && log[..|log| - 1][j] == Issue(root, None);
    assert log[j] == Issue(root, None);
  }

  lemma NewestIsInOne(log: seq<Issue>, r: TokenId)
    requires log != [] && Linked(log)
    ensures var last := log[|log| - 1];
            last.id in Family(log, r) <==>
            if last.from.None? then r == last.id else last.from.value in Family(log[..|log| - 1], r)
  {
    LinkedFront(log);
    FamilyIsPath(log[..|log| - 1], r);
    LastIsNew(log);
  }

  lemma OthersStayInOne(log: seq<Issue>, id: TokenId, r: TokenId)
    requires log != [] && Linked(log) && id != log[|log| - 1].id
    ensures id in Family(log, r) <==> id in Family(log[..|log| - 1], r)
  {
    if log[|log| - 1] == Issue(r, None) {
      NotTwice(log, r);
    }
  }

  /** Every token goes back to exactly one login. */
  lemma {:induction false} OneLoginEach(log: seq<Issue>, id: TokenId) returns (root: TokenId)
    requires Linked(log) && IssuedBefore(log, id, |log|)
    ensures LoginIn(log, root)
    ensures forall r :: id in Family(log, r) <==> r == root
  {
    var n := |log| - 1;
    var front, last := log[..n], log[n];
    LinkedFront(log);
    if id == last.id && last.from.None? {
      root := id;
      assert log[n] == Issue(id, None);
    } else {
      var earlier := if id == last.id then last.from.value else id;
      assert id == last.id ==> IssuedBefore(log, earlier, n);
      var i :| 0 <= i < n && log[i].id == earlier;
      assert front[i].id == earlier;
      root := OneLoginEach(front, earlier);
      LoginStays(log, root);
    }
    forall r
      ensures id in Family(log, r) <==> r == root
    {
      if id == last.id {
        NewestIsInOne(log, r);
      } else {
        OthersStayInOne(log, id, r);
      }
    }
  }

  lemma LastIsNew(log: seq<Issue>)
    requires log != [] && Linked(log)
    ensures !IssuedBefore(log[..|log| - 1], log[|log| - 1].id, |log| - 1)
  {
    assert forall i :: 0 <= i < |log| - 1 ==> log[..|log| - 1][i] == log[i];
  }

  lemma NotTwice(log: seq<Issue>, root: TokenId)
    requires log != [] && Linked(log) && log[|log| - 1].id == root
    ensures Family(log[..|log| - 1], root) == []
  {
    var front := log[..|log| - 1];
    LinkedFront(log);
    FamilyIsPath(front, root);
    assert forall i :: 0 <= i < |front| ==> front[i] == log[i] && log[i].id != root;
  }

  // ---------- Main theorems ----------

  /** In every interleaving a refresh token is exchanged at most once. */
  lemma AtMostOneSuccessor(steps: seq<Step>, end: State, i: nat, j: nat)
    requires Run(EMPTY, steps, end) && i < |end.log| && j < |end.log|
    requires end.log[i].from.Some? && end.log[i].from == end.log[j].from
    ensures i == j
  {
    RunKeeps(EMPTY, steps, end);
  }

  /** In every interleaving the tokens of one login form a path from the token of the login, all for its user,
      and all but the last are revoked: at most one is unrevoked. */
  lemma OneLiveTokenPerLogin(steps: seq<Step>, end: State, root: TokenId)
    requires Run(EMPTY, steps, end) && LoginIn(end.log, root)
    ensures var ids := Family(end.log, root);
            ids != [] && ids[0] == root && root in end.table && Path(end.log, ids) &&
            (forall k :: 0 <= k < |ids| ==> ids[k] in end.table && end.table[ids[k]].user == end.table[root].user) &&
            (forall k :: 0 <= k < |ids| - 1 ==> end.table[ids[k]].revoked)
  {
    RunKeeps(EMPTY, steps, end);
    FamilyIsPath(end.log, root);
    var ids := Family(end.log, root);
    forall k | 0 <= k < |ids| - 1
      ensures ids[k] in end.table && end.table[ids[k]].revoked
    {
      assert Issue(ids[k + 1], Some(ids[k])) in end.log;
    }
    forall k | 0 <= k < |ids|
      ensures ids[k] in end.table && end.table[ids[k]].user == end.table[root].user
    {
      SameUser(end, ids, k);
    }
  }

  lemma {:induction false} SameUser(s: State, ids: seq<TokenId>, k: nat)
    requires Stored(s.table, s.log) && Path(s.log, ids) && k < |ids| && ids[0] in s.table
    ensures ids[k] in s.table && s.table[ids[k]].user == s.table[ids[0]].user
  {
    if k > 0 {
      SameUser(s, ids, k - 1);
      assert Issue(ids[k], Some(ids[k - 1])) in s.log;
    }
  }

  /** Every token in the table belongs to the path of exactly one login. */
  lemma EveryTokenHasItsLogin(steps: seq<Step>, end: State, id: TokenId)
    requires Run(EMPTY, steps, end) && id in end.table
    ensures exists root :: LoginIn(end.log, root) && id in Family(end.log, root)
    ensures forall r, q :: id in Family(end.log, r) && id in Family(end.log, q) ==> r == q
  {
    RunKeeps(EMPTY, steps, end);
    var root := OneLoginEach(end.log, id);
    assert LoginIn(end.log, root) && id in Family(end.log, root);
  }

  /** Tokens are never deleted, given to another user or made to last longer, and revocation is permanent. */
  lemma {:induction false} RevocationIsPermanent(s: State, steps: seq<Step>, end: State, id: TokenId)
    requires Run(s, steps, end) && id in s.table
    ensures id in end.table && end.table[id].user == s.table[id].user && end.table[id].expires == s.table[id].expires
    ensures s.table[id].revoked ==> end.table[id].revoked
    decreases |steps|
  {
    if steps != [] {
      RevocationIsPermanent(Apply(s, steps[0]), steps[1..], end, id);
    }
  }

  // ---------- No exchange after the expiry ----------

  /** In these steps some call that has read the token goes on to revoke it, with the clock before the given time. */
  predicate ConsumedIn(s: State, steps: seq<Step>, id: TokenId, expires: int)
    decreases |steps|
  {
    steps != [] && Enabled(s, steps[0]) &&
    ((steps[0].Consume? && s.calls[steps[0].c].id == id && steps[0].now < expires) ||
     ConsumedIn(Apply(s, steps[0]), steps[1..], id, expires))
  }

  /** Whether the exchange of a token can come from the state, or comes from a revocation to follow. */
  ghost predicate ExchangeComesFrom(s: State, steps: seq<Step>, id: TokenId, expires: int) {
    Exchanged(s.log, id) || (exists c :: c in s.calls && s.calls[c].Won? && s.calls[c].id == id) ||
    ConsumedIn(s, steps, id, expires)
  }

  lemma StepComesFrom(s: State, steps: seq<Step>, id: TokenId, expires: int)
    requires steps != [] && Enabled(s, steps[0]) && ExchangeComesFrom(Apply(s, steps[0]), steps[1..], id, expires)
    requires id in s.table ==> s.table[id].expires == expires
    ensures ExchangeComesFrom(s, steps, id, expires)
  {
    var step := steps[0];
    var next := Apply(s, step);
    if Exchanged(next.log, id) {
      if !Exchanged(s.log, id) {
        assert next.log[..|s.log|] == s.log;
        assert s.calls[step.c].Won? && s.calls[step.c].id == id;
      }
    } else if !ConsumedIn(next, steps[1..], id, expires) {
      var c :| c in next.calls && next.calls[c].Won? && next.calls[c].id == id;
      if !(c in s.calls && s.calls[c] == next.calls[c]) {
        assert step == Consume(c, step.now);
      }
    }
  }

  lemma {:induction false} ExchangesComeFrom(s: State, steps: seq<Step>, end: State, id: TokenId)
    requires Run(s, steps, end) && id in end.table && Exchanged(end.log, id)
    ensures ExchangeComesFrom(s, steps, id, end.table[id].expires)
    decreases |steps|
  {
    if steps != [] {
      ExchangesComeFrom(Apply(s, steps[0]), steps[1..], end, id);
      if id in s.table {
        RevocationIsPermanent(s, steps, end, id);
      }
      StepComesFrom(s, steps, id, end.table[id].expires);
    }
  }

  /** In every interleaving a token that was exchanged was revoked for it before it expired. */
  lemma NoExchangeAfterExpiry(steps: seq<Step>, end: State, id: TokenId)
    requires Run(EMPTY, steps, end) && id in end.table && Exchanged(end.log, id)
    ensures ConsumedIn(EMPTY, steps, id, end.table[id].expires)
  {
    ExchangesComeFrom(EMPTY, steps, end, id);
  }

  // ---------- When a session is over ----------

  /** The token is revoked and no call is about to exchange it. */
  ghost predicate Over(s: State, id: TokenId) {
    id in s.table && s.table[id].revoked && forall c :: c in s.calls && s.calls[c].Won? ==> s.calls[c].id != id
  }

  lemma StepStaysOver(s: State, step: Step, id: TokenId)
    requires Over(s, id) && Enabled(s, step)
    ensures Over(Apply(s, step), id)
    ensures Exchanged(Apply(s, step).log, id) <==> Exchanged(s.log, id)
  {
    var next := Apply(s, step);
    var n := |s.log|;
    assert forall i :: 0 <= i < n ==> next.log[i] == s.log[i];
    if Exchanged(s.log, id) {
      var i :| 0 <= i < n && s.log[i].from == Some(id);
      assert next.log[i].from == Some(id);
    }
  }

  /** Once a token is revoked with no exchange under way it gets no successor any more. */
  lemma {:induction false} OverIsForGood(s: State, steps: seq<Step>, end: State, id: TokenId)
    requires Over(s, id) && Run(s, steps, end)
    ensures Over(end, id) && (Exchanged(end.log, id) <==> Exchanged(s.log, id))
    decreases |steps|
  {
    if steps != [] {
      StepStaysOver(s, steps[0], id);
      OverIsForGood(Apply(s, steps[0]), steps[1..], end, id);
    }
  }

  /** A restart between the revocation of a token and the issue of its successor ends the session. */
  lemma RestartEnds(s: State, id: TokenId)
    requires id in s.table && s.table[id].revoked
    ensures Over(Apply(s, Restart), id) && Apply(s, Restart).table == s.table
  {
  }

  /** An update reported as failed has had its effect all the same. */
  lemma UnsureRevokes(s: State, c: CallId, now: int)
    requires Enabled(s, Consume(c, now))
    ensures var unsure, sure := Apply(s, ConsumeUnsure(c, now)), Apply(s, Consume(c, now));
            unsure.table == sure.table && unsure.calls[c] == Done(None)
  {
  }

  ghost predicate Continues(s: State, more: seq<Step>, end: State) {
    Run(s, more, end)
  }

  /** A session can never go on, whatever the clock will read, exactly when its newest token is revoked with
      no exchange under way; otherwise some continuation extends the path of the login. */
  lemma SessionEndsIff(steps: seq<Step>, s: State, root: TokenId, newest: TokenId, newId: TokenId)
    requires Run(EMPTY, steps, s) && newId !in s.table
    requires Family(s.log, root) != [] && newest == Family(s.log, root)[|Family(s.log, root)| - 1]
    ensures Over(s, newest) <==>
            forall more, end :: Continues(s, more, end) ==> Family(end.log, root) == Family(s.log, root)
  {
    RunKeeps(EMPTY, steps, s);
    if Over(s, newest) {
      forall more, end | Continues(s, more, end)
        ensures Family(end.log, root) == Family(s.log, root)
      {
        EndedStaysEnded(s, more, end, root);
      }
    } else {
      var more, end := OpenGoesOn(s, root, newest, newId);
      assert Continues(s, more, end);
    }
  }

  lemma OpenGoesOn(s: State, root: TokenId, newest: TokenId, newId: TokenId)
    returns (more: seq<Step>, end: State)
    requires Invariant(s) && newId !in s.table && newest in Family(s.log, root) && !Over(s, newest)
    ensures Run(s, more, end) && Family(end.log, root) == Family(s.log, root) + [newId]
    ensures Family(end.log, root) != Family(s.log, root)
  {
    FamilyIsPath(s.log, root);
    assert IssuedBefore(s.log, newest, |s.log|);
    more, end := GoOn(s, newest, s.table[newest].expires - 1, newId);
    FamilyGrows(s.log, root, newest, newId);
    assert |Family(end.log, root)| == |Family(s.log, root)| + 1;
  }

  lemma FamilyGrows(log: seq<Issue>, root: TokenId, from: TokenId, newId: TokenId)
    requires from in Family(log, root)
    ensures Family(log + [Issue(newId, Some(from))], root) == Family(log, root) + [newId]
  {
    assert (log + [Issue(newId, Some(from))])[..|log|] == log;
  }

  /** An issue that is for another login or in exchange for a token of another one leaves the path alone. */
  lemma FamilyStays(log: seq<Issue>, root: TokenId)
    requires log != [] && Linked(log) && Family(log[..|log| - 1], root) != []
    requires var ids := Family(log[..|log| - 1], root); log[|log| - 1].from != Some(ids[|ids| - 1])
    ensures Family(log, root) == Family(log[..|log| - 1], root)
  {
    var front, last := log[..|log| - 1], log[|log| - 1];
    var ids := Family(front, root);
    if last.from.None? {
      if last.id == root {
        NotTwice(log, root);
        assert false;
      }
    } else {
      LinkedFront(log);
      FamilyIsPath(front, root);
      forall k | 0 <= k < |ids|
        ensures last.from != Some(ids[k])
      {
        OnlyLastIsExchanged(log, ids, k);
      }
      assert last.from.value !in ids;
    }
  }

  lemma StepStaysEnded(s: State, step: Step, root: TokenId)
    requires Invariant(s) && Enabled(s, step) && Family(s.log, root) != []
    requires Over(s, Family(s.log, root)[|Family(s.log, root)| - 1])
    ensures Family(Apply(s, step).log, root) == Family(s.log, root)
  {
    var next := Apply(s, step);
    StepKeeps(s, step);
    if next.log != s.log {
      assert next.log[..|s.log|] == s.log;
      FamilyStays(next.log, root);
    }
  }

  lemma {:induction false} EndedStaysEnded(s: State, steps: seq<Step>, end: State, root: TokenId)
    requires Invariant(s) && Run(s, steps, end) && Family(s.log, root) != []
    requires Over(s, Family(s.log, root)[|Family(s.log, root)| - 1])
    ensures Family(end.log, root) == Family(s.log, root)
    decreases |steps|
  {
    if steps != [] {
      var ids := Family(s.log, root);
      StepKeeps(s, steps[0]);
      StepStaysEnded(s, steps[0], root);
      StepStaysOver(s, steps[0], ids[|ids| - 1]);
      EndedStaysEnded(Apply(s, steps[0]), steps[1..], end, root);
    }
  }

  /** A call that exchanges `id`, or the one under way, goes through. */
  lemma GoOn(s: State, id: TokenId, now: int, newId: TokenId) returns (more: seq<Step>, end: State)
    requires Invariant(s) && id in s.table && !Over(s, id) && newId !in s.table
    requires s.table[id].revoked || s.table[id].expires > now
    ensures Run(s, more, end) && end.log == s.log + [Issue(newId, Some(id))]
  {
    if s.table[id].revoked {
      var c :| c in s.calls && s.calls[c].Won? && s.calls[c].id == id;
      end := Apply(s, Insert(c, newId, now));
      more := [Insert(c, newId, now)];
      assert Run(end, more[1..], end);
    } else {
      var c := FreshCall(s.calls);
      var s1 := Apply(s, AskRefresh(c, id));
      var s2 := Apply(s1, Validate(c, now));
      var s3 := Apply(s2, Consume(c, now));
      end := Apply(s3, Insert(c, newId, now));
      assert Run(end, [], end);
      RunCons(s3, Insert(c, newId, now), [], end);
      RunCons(s2, Consume(c, now), [Insert(c, newId, now)], end);
      RunCons(s1, Validate(c, now), [Consume(c, now), Insert(c, newId, now)], end);
      RunCons(s, AskRefresh(c, id), [Validate(c, now), Consume(c, now), Insert(c, newId, now)], end);
      more := [AskRefresh(c, id)] + [Validate(c, now), Consume(c, now), Insert(c, newId, now)];
    }
  }

  lemma RunCons(s: State, step: Step, rest: seq<Step>, end: State)
    requires Enabled(s, step) && Run(Apply(s, step), rest, end)
    ensures Run(s, [step] + rest, end)
  {
    assert ([step] + rest)[1..] == rest;
  }

  lemma {:induction false} FreshBelow(calls: set<CallId>) returns (c: CallId)
    ensures forall d :: d in calls ==> d < c
    decreases calls
  {
    if calls == {} {
      c := 0;
    } else {
      var d :| d in calls;
      var rest := FreshBelow(calls - {d});
      c := if rest > d then rest else d + 1;
      assert forall e :: e in calls && e != d ==> e in calls - {d};
    }
  }

  lemma FreshCall(calls: map<CallId, Call>) returns (c: CallId)
    ensures c !in calls
  {
    c := FreshBelow(calls.Keys);
    assert c !in calls.Keys;
  }

  // ---------- The store and the service as the program has them ----------

  /** What the world answers to one Refresh call: two clock readings, which statements fail, the new id. */
  datatype World = World(readOk: bool, readAt: int, updateOk: bool, updateAt: int, userKnown: bool, signed: bool,
                         newId: TokenId, expires: int)

  /** A Refresh call with no other call in between. */
  function RefreshAlone(t: Table, id: TokenId, w: World): (Table, Option<TokenId>) {
    if !w.readOk || !Readable(t, id, w.readAt) || !w.updateOk || !Active(t, id, w.updateAt) then (t, None)
    else if !w.userKnown || !w.signed || w.newId in t then (Revoked(t, id), None)
    else (Revoked(t, id)[w.newId := Token(t[id].user, w.expires, false)], Some(w.newId))
  }

  class TokenStore {
    var table: Table

    constructor ()
      ensures table == map[]
    {
      table := map[];
    }

    method CreateRefreshToken(newId: TokenId, user: UserId, expires: int) returns (ok: bool)
      modifies this
      ensures ok == (newId !in old(table))
      ensures table == if ok then old(table)[newId := Token(user, expires, false)] else old(table)
    {
      ok := newId !in table;
      if ok {
        table := table[newId := Token(user, expires, false)];
      }
    }

    method GetValidRefreshToken(id: TokenId, now: int) returns (r: Option<Token>)
      ensures r.Some? <==> Readable(table, id, now)
      ensures r.Some? <==> id in table && !table[id].revoked && now <= table[id].expires
      ensures r.Some? ==> r.value == table[id]
    {
      if id !in table {
        return None;
      }
      var token := table[id];
      if token.revoked || token.expires < now {
        return None;
      }
      return Some(token);
    }

    method RevokeRefreshToken(id: TokenId)
      modifies this
      ensures table == Revoked(old(table), id)
      ensures table.Keys == old(table).Keys && forall other :: other in table && other != id ==> table[other] == old(table)[other]
      ensures id in table ==> table[id] == Token(old(table)[id].user, old(table)[id].expires, true)
    {
      if id in table {
        table := table[id := table[id].(revoked := true)];
      }
    }

    method RevokeRefreshTokenIfActive(id: TokenId, now: int) returns (won: bool)
      modifies this
      ensures won == Active(old(table), id, now)
      ensures won <==> id in old(table) && !old(table)[id].revoked && now < old(table)[id].expires
      ensures table == if won then Revoked(old(table), id) else old(table)
    {
      won := id in table && !table[id].revoked && table[id].expires > now;
      if won {
        table := table[id := table[id].(revoked := true)];
      }
    }

    /** Service.Refresh. */
    method Refresh(id: TokenId, w: World) returns (r: Option<TokenId>)
      modifies this
      ensures (table, r) == RefreshAlone(old(table), id, w)
      ensures var consumed := w.readOk && w.updateOk && id in old(table) && !old(table)[id].revoked &&
                              w.readAt <= old(table)[id].expires && w.updateAt < old(table)[id].expires;
              (r.Some? <==> consumed && w.userKnown && w.signed && w.newId !in old(table)) &&
              (r.Some? ==> r.value == w.newId && w.newId in table &&
                           table[w.newId] == Token(old(table)[id].user, w.expires, false)) &&
              (consumed ==> table[id].revoked) && (!consumed ==> table == old(table))
    {
      if !w.readOk { return None; }
      var token := GetValidRefreshToken(id, w.readAt);
      if token.None? || !w.updateOk { return None; }
      var won := RevokeRefreshTokenIfActive(id, w.updateAt);
      if !won || !w.userKnown || !w.signed { return None; }
      var ok := CreateRefreshToken(w.newId, token.value.user, w.expires);
      return if ok then Some(w.newId) else None;
    }
  }

  /** The steps that a lone Refresh call takes. */
  function AloneSteps(t: Table, c: CallId, id: TokenId, w: World): seq<Step> {
    [AskRefresh(c, id)] +
    if !w.readOk then [GiveUp(c)]
    else
      [Validate(c, w.readAt)] +
      if !Readable(t, id, w.readAt) then []
      else if !w.updateOk then [GiveUp(c)]
      else
        [Consume(c, w.updateAt)] +
        if !Active(t, id, w.updateAt) then []
        else if !w.userKnown || !w.signed then [GiveUp(c)]
        else [Insert(c, w.newId, w.expires)]
  }

  function RunOf(s: State, steps: seq<Step>): Option<State>
    decreases |steps|
  {
    if steps == [] then Some(s)
    else if !Enabled(s, steps[0]) then None
    else RunOf(Apply(s, steps[0]), steps[1..])
  }

  lemma RunOfCons(s: State, step: Step, rest: seq<Step>)
    requires Enabled(s, step)
    ensures RunOf(s, [step] + rest) == RunOf(Apply(s, step), rest)
  {
    assert ([step] + rest)[1..] == rest;
  }

  lemma RunOfOne(s: State, step: Step)
    requires Enabled(s, step)
    ensures RunOf(s, [step]) == Some(Apply(s, step))
  {
    assert [step][1..] == [];
  }

  lemma AloneAfterConsume(s: State, c: CallId, id: TokenId, user: UserId, w: World)
    requires c in s.calls && s.calls[c] == Won(id, user)
    ensures var rest := if !w.userKnown || !w.signed then [GiveUp(c)] else [Insert(c, w.newId, w.expires)];
            var end := RunOf(s, rest);
            var ok := w.userKnown && w.signed && w.newId !in s.table;
            end.Some? && end.value.calls == s.calls[c := Done(if ok then Some(w.newId) else None)] &&
            end.value.table == if ok then s.table[w.newId := Token(user, w.expires, false)] else s.table
  {
    RunOfOne(s, if !w.userKnown || !w.signed then GiveUp(c) else Insert(c, w.newId, w.expires));
  }

  /** The method and the interleaved calls are one protocol: alone, the steps do what the method does. */
  lemma AloneIsTheMethod(s: State, c: CallId, id: TokenId, w: World)
    requires c !in s.calls
    ensures var (table, result) := RefreshAlone(s.table, id, w);
            var end := RunOf(s, AloneSteps(s.table, c, id, w));
            end.Some? && end.value.table == table && end.value.calls == s.calls[c := Done(result)]
  {
    var s1 := Apply(s, AskRefresh(c, id));
    var steps := AloneSteps(s.table, c, id, w);
    assert steps == [AskRefresh(c, id)] + steps[1..];
    RunOfCons(s, AskRefresh(c, id), steps[1..]);
    if !w.readOk {
      assert steps[1..] == [GiveUp(c)];
      RunOfOne(s1, GiveUp(c));
    } else {
      var s2 := Apply(s1, Validate(c, w.readAt));
      assert steps[1..] == [Validate(c, w.readAt)] + steps[2..];
      RunOfCons(s1, Validate(c, w.readAt), steps[2..]);
      if Readable(s.table, id, w.readAt) {
        if !w.updateOk {
          assert steps[2..] == [GiveUp(c)];
          RunOfOne(s2, GiveUp(c));
        } else {
          var s3 := Apply(s2, Consume(c, w.updateAt));
          assert steps[2..] == [Consume(c, w.updateAt)] + steps[3..];
          RunOfCons(s2, Consume(c, w.updateAt), steps[3..]);
          if Active(s.table, id, w.updateAt) {
            AloneAfterConsume(s3, c, id, s.table[id].user, w);
          }
        }
      }
    }
  }

  /** A login alone issues a token that belongs to no other, and a logout alone revokes. */
  lemma LoginAlone(s: State, c: CallId, user: UserId, newId: TokenId, expires: int)
    requires c !in s.calls && newId !in s.table
    ensures RunOf(s, [AskLogin(c, user), Insert(c, newId, expires)]) ==
            Some(State(s.table[newId := Token(user, expires, false)], s.calls[c := Done(Some(newId))],
                       s.log + [Issue(newId, None)]))
  {
    var s1 := Apply(s, AskLogin(c, user));
    assert s1.calls[c := Done(Some(newId))] == s.calls[c := Done(Some(newId))];
    RunOfOne(s1, Insert(c, newId, expires));
    RunOfCons(s, AskLogin(c, user), [Insert(c, newId, expires)]);
    assert [AskLogin(c, user)] + [Insert(c, newId, expires)] == [AskLogin(c, user), Insert(c, newId, expires)];
  }

  lemma LogoutAlone(s: State, c: CallId, id: TokenId)
    requires c !in s.calls && id in s.table
    ensures RunOf(s, [AskLogout(c, id), RevokeByLogout(c)]) ==
            Some(State(s.table[id := Token(s.table[id].user, s.table[id].expires, true)], s.calls[c := Done(None)], s.log))
  {
    var s1 := Apply(s, AskLogout(c, id));
    assert s1.calls[c := Done(None)] == s.calls[c := Done(None)];
    RunOfOne(s1, RevokeByLogout(c));
    RunOfCons(s, AskLogout(c, id), [RevokeByLogout(c)]);
    assert [AskLogout(c, id)] + [RevokeByLogout(c)] == [AskLogout(c, id), RevokeByLogout(c)];
  }
}
