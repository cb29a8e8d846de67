/** internal/server/middleware.go and internal/modules/files/ratelimit.go: one token bucket for each IP,
    with a sweep that deletes idle buckets. Times are nanoseconds, tokens billionths of a token. */
module RateLimiter {

  const SECOND: int := 1_000_000_000

  datatype Bucket = Bucket(tokens: int, last: int)

  type Buckets = map<string, Bucket>

  /** Buckets idle for this long are deleted. */
  function Ttl(burst: nat): int {
    if burst < 60 then 60 * SECOND else burst * SECOND
  }

  function Min(a: int, b: int): int { if a < b then a else b }
  function Max(a: int, b: int): int { if a < b then b else a }

  function Swept(buckets: Buckets, burst: nat, now: int): Buckets {
    map ip | ip in buckets && now - buckets[ip].last < Ttl(burst) :: buckets[ip]
  }

  /** One request on the buckets alone: the new buckets and whether it may pass. */
  function Take(buckets: Buckets, burst: nat, ip: string, now: int): (Buckets, bool) {
    if ip !in buckets then (buckets[ip := Bucket((burst - 1) * SECOND, now)], true)
    else
      var tokens := Min(buckets[ip].tokens + (now - buckets[ip].last), burst * SECOND);
      if tokens < SECOND then (buckets[ip := Bucket(tokens, now)], false)
      else (buckets[ip := Bucket(tokens - SECOND, now)], true)
  }

  /** The limiter of the source: its buckets and the time of the last sweep. */
  datatype Limiter = Limiter(buckets: Buckets, lastSweep: int)

  function Step(l: Limiter, burst: nat, ip: string, now: int): (Limiter, bool) {
    var sweeps := now - l.lastSweep >= Ttl(burst);
    var (buckets, ok) := Take(if sweeps then Swept(l.buckets, burst, now) else l.buckets, burst, ip, now);
    (Limiter(buckets, if sweeps then now else l.lastSweep), ok)
  }

  // ---------- Runs ----------

  datatype Request = Request(ip: string, at: int)

  /** The clock never goes back, starting at `from`. */
  predicate Ordered(reqs: seq<Request>, from: int) {
    reqs == [] || (from <= reqs[0].at && Ordered(reqs[1..], reqs[0].at))
  }

  /** What the sweeping limiter answers. */
  function Answers(l: Limiter, burst: nat, reqs: seq<Request>): seq<bool>
    decreases |reqs|
  {
    if reqs == [] then []
    else
      var (next, ok) := Step(l, burst, reqs[0].ip, reqs[0].at);
      [ok] + Answers(next, burst, reqs[1..])
  }

  /** What a limiter answers that never deletes a bucket. */
  function PlainAnswers(buckets: Buckets, burst: nat, reqs: seq<Request>): seq<bool>
    decreases |reqs|
  {
    if reqs == [] then []
    else
      var (next, ok) := Take(buckets, burst, reqs[0].ip, reqs[0].at);
      [ok] + PlainAnswers(next, burst, reqs[1..])
  }

  predicate Sound(buckets: Buckets, burst: nat, now: int) {
    forall ip :: ip in buckets ==> 0 <= buckets[ip].tokens <= burst * SECOND && buckets[ip].last <= now
  }

  /** The sweeping limiter has the same buckets, save for some that are idle long enough to be full. */
  ghost predicate SameButIdle(buckets: Buckets, plain: Buckets, burst: nat, now: int) {
    Sound(plain, burst, now) &&
    forall ip :: ip in buckets || ip in plain ==>
                   ip in plain && if ip in buckets then buckets[ip] == plain[ip]
                                  else now - plain[ip].last >= Ttl(burst)
  }

  lemma SweepKeepsSame(buckets: Buckets, plain: Buckets, burst: nat, before: int, now: int)
    requires SameButIdle(buckets, plain, burst, before) && before <= now
    ensures SameButIdle(buckets, plain, burst, now)
    ensures SameButIdle(Swept(buckets, burst, now), plain, burst, now)
  {
  }

  lemma TakeKeepsSame(buckets: Buckets, plain: Buckets, burst: nat, ip: string, now: int)
    requires SameButIdle(buckets, plain, burst, now) && burst >= 1
    ensures Take(buckets, burst, ip, now).1 == Take(plain, burst, ip, now).1
    ensures SameButIdle(Take(buckets, burst, ip, now).0, Take(plain, burst, ip, now).0, burst, now)
  {
  }

  lemma {:induction false} RunsAgree(l: Limiter, plain: Buckets, burst: nat, reqs: seq<Request>, from: int)
    requires SameButIdle(l.buckets, plain, burst, from) && burst >= 1 && Ordered(reqs, from)
    ensures Answers(l, burst, reqs) == PlainAnswers(plain, burst, reqs)
    decreases |reqs|
  {
    if reqs != [] {
      var ip, now := reqs[0].ip, reqs[0].at;
      var swept := if now - l.lastSweep >= Ttl(burst) then Swept(l.buckets, burst, now) else l.buckets;
      SweepKeepsSame(l.buckets, plain, burst, from, now);
      TakeKeepsSame(swept, plain, burst, ip, now);
      RunsAgree(Step(l, burst, ip, now).0, Take(plain, burst, ip, now).0, burst, reqs[1..], now);
    }
  }

  /** Main theorem: deleting idle buckets is invisible. For every sequence of requests over all IPs the
      sweeping limiter answers as one that never deletes, whenever it sweeps. */
  lemma EvictionIsInvisible(burst: nat, reqs: seq<Request>, from: int, lastSweep: int)
    requires burst >= 1 && Ordered(reqs, from)
    ensures Answers(Limiter(map[], lastSweep), burst, reqs) == PlainAnswers(map[], burst, reqs)
  {
    RunsAgree(Limiter(map[], lastSweep), map[], burst, reqs, from);
  }

  // ---------- The rate ----------

  /** How many requests of `ip` with a time in [from, to] were let through. */
  function Passed(reqs: seq<Request>, answers: seq<bool>, ip: string, from: int, to: int): nat
    requires |answers| == |reqs|
    decreases |reqs|
  {
    if reqs == [] then 0
    else (if answers[0] && reqs[0].ip == ip && from <= reqs[0].at <= to then 1 else 0) +
         Passed(reqs[1..], answers[1..], ip, from, to)
  }

  /** The tokens that `ip` could spend at `now`. */
  function Level(buckets: Buckets, burst: nat, ip: string, now: int): int {
    if ip in buckets then Min(buckets[ip].tokens + (now - buckets[ip].last), burst * SECOND) else burst * SECOND
  }

  lemma {:induction false} AnswersLength(buckets: Buckets, burst: nat, reqs: seq<Request>)
    ensures |PlainAnswers(buckets, burst, reqs)| == |reqs|
    decreases |reqs|
  {
    if reqs != [] {
      AnswersLength(Take(buckets, burst, reqs[0].ip, reqs[0].at).0, burst, reqs[1..]);
    }
  }

  /** A request takes its token from the level and leaves the other levels alone. */
  lemma TakeLevel(buckets: Buckets, burst: nat, ip: string, now: int, other: string, later: int)
    requires burst >= 1 && Sound(buckets, burst, now) && now <= later
    ensures var (next, ok) := Take(buckets, burst, ip, now);
            Sound(next, burst, now) &&
            Level(next, burst, ip, now) == Level(buckets, burst, ip, now) - (if ok then SECOND else 0) &&
            0 <= Level(next, burst, other, later) <= Level(buckets, burst, other, later)
  {
  }

  /** What passes within a window is paid from the level at its start and the refill during it. */
  lemma {:induction false} PassedIsPaid(buckets: Buckets, burst: nat, reqs: seq<Request>, start: int,
                                        ip: string, from: int, to: int)
    requires burst >= 1 && Sound(buckets, burst, start) && Ordered(reqs, start)
    requires Max(start, from) <= to
    ensures |PlainAnswers(buckets, burst, reqs)| == |reqs|
    ensures Passed(reqs, PlainAnswers(buckets, burst, reqs), ip, from, to) * SECOND
            <= Level(buckets, burst, ip, Max(start, from)) + (to - Max(start, from))
    decreases |reqs|
  {
    AnswersLength(buckets, burst, reqs);
    if reqs != [] {
      var r := reqs[0];
      var next := Take(buckets, burst, r.ip, r.at).0;
      var m := Max(start, from);
      TakeLevel(buckets, burst, r.ip, r.at, ip, Max(r.at, from));
      assert Sound(buckets, burst, r.at);
      if r.at <= to {
        PassedIsPaid(next, burst, reqs[1..], r.at, ip, from, to);
        assert PlainAnswers(buckets, burst, reqs)[1..] == PlainAnswers(next, burst, reqs[1..]);
        assert Level(buckets, burst, ip, Max(r.at, from)) <= Level(buckets, burst, ip, m) + (Max(r.at, from) - m);
      } else {
        NonePassedLate(reqs, PlainAnswers(buckets, burst, reqs), r.at, ip, from, to);
      }
    }
  }

  lemma {:induction false} NonePassedLate(reqs: seq<Request>, answers: seq<bool>, start: int, ip: string, from: int, to: int)
    requires |answers| == |reqs| && Ordered(reqs, start) && to < start
    ensures Passed(reqs, answers, ip, from, to) == 0
    decreases |reqs|
  {
    if reqs != [] {
      NonePassedLate(reqs[1..], answers[1..], reqs[0].at, ip, from, to);
    }
  }

  /** Main theorem: whatever is requested, the sweeping limiter lets no IP pass more than burst + T
      requests in any span of T seconds. */
  lemma RateIsBounded(burst: nat, reqs: seq<Request>, start: int, lastSweep: int, ip: string, from: int, to: int)
    requires burst >= 1 && Ordered(reqs, start) && from <= to
    ensures |Answers(Limiter(map[], lastSweep), burst, reqs)| == |reqs|
    ensures Passed(reqs, Answers(Limiter(map[], lastSweep), burst, reqs), ip, from, to) * SECOND
            <= burst * SECOND + (to - from)
  {
    EvictionIsInvisible(burst, reqs, start, lastSweep);
    AnswersLength(map[], burst, reqs);
    if Max(start, from) <= to {
      PassedIsPaid(map[], burst, reqs, start, ip, from, to);
    } else {
      NonePassedLate(reqs, PlainAnswers(map[], burst, reqs), start, ip, from, to);
    }
  }

  // ---------- Exactly which requests pass ----------

  predicate InOrder(reqs: seq<Request>) {
    forall i, j :: 0 <= i < j < |reqs| ==> reqs[i].at <= reqs[j].at
  }

  /** How many of the requests k to n - 1 were requests of `ip` that passed. */
  function PassedBetween(reqs: seq<Request>, answers: seq<bool>, ip: string, k: nat, n: nat): nat
    requires n <= |reqs| == |answers|
  {
    if n <= k then 0
    else PassedBetween(reqs, answers, ip, k, n - 1) + if reqs[n - 1].ip == ip && answers[n - 1] then 1 else 0
  }

  /** What a full bucket at the time of request k would have come to at `now`, before request n. */
  function Allowance(burst: nat, reqs: seq<Request>, answers: seq<bool>, ip: string, k: nat, n: nat, now: int): int
    requires k < n <= |reqs| == |answers|
  {
    burst * SECOND + (now - reqs[k].at) - SECOND * PassedBetween(reqs, answers, ip, k, n)
  }

  /** The buckets after these requests, when none is ever deleted. */
  function After(buckets: Buckets, burst: nat, reqs: seq<Request>): Buckets
    decreases |reqs|
  {
    if reqs == [] then buckets else After(Take(buckets, burst, reqs[0].ip, reqs[0].at).0, burst, reqs[1..])
  }

  lemma TailOfTake<T>(s: seq<T>, n: nat)
    requires 0 < n <= |s|
    ensures s[..n] != [] && s[..n][0] == s[0] && s[..n][1..] == s[1..][..n - 1]
  {
  }

  lemma AfterFirst(buckets: Buckets, burst: nat, reqs: seq<Request>, n: nat)
    requires 0 < n <= |reqs|
    ensures After(buckets, burst, reqs[..n]) ==
            After(Take(buckets, burst, reqs[0].ip, reqs[0].at).0, burst, reqs[1..][..n - 1])
  {
    TailOfTake(reqs, n);
  }

  lemma {:induction false} AfterNext(buckets: Buckets, burst: nat, reqs: seq<Request>, n: nat)
    requires n < |reqs|
    ensures var before := After(buckets, burst, reqs[..n]);
            After(buckets, burst, reqs[..n + 1]) == Take(before, burst, reqs[n].ip, reqs[n].at).0 &&
            |PlainAnswers(buckets, burst, reqs)| == |reqs| &&
            PlainAnswers(buckets, burst, reqs)[n] == Take(before, burst, reqs[n].ip, reqs[n].at).1
    decreases n
  {
    AnswersLength(buckets, burst, reqs);
    AfterFirst(buckets, burst, reqs, n + 1);
    if n == 0 {
      assert reqs[..0] == [] && reqs[1..][..0] == [];
    } else {
      AfterFirst(buckets, burst, reqs, n);
      AfterNext(Take(buckets, burst, reqs[0].ip, reqs[0].at).0, burst, reqs[1..], n - 1);
      assert reqs[1..][n - 1] == reqs[n];
    }
  }

  lemma {:induction false} SoundAfter(burst: nat, reqs: seq<Request>, n: nat, now: int)
    requires burst >= 1 && InOrder(reqs) && n <= |reqs| && (n > 0 ==> reqs[n - 1].at <= now)
    ensures Sound(After(map[], burst, reqs[..n]), burst, now)
  {
    if n > 0 {
      SoundAfter(burst, reqs, n - 1, reqs[n - 1].at);
      AfterNext(map[], burst, reqs, n - 1);
      TakeLevel(After(map[], burst, reqs[..n - 1]), burst, reqs[n - 1].ip, reqs[n - 1].at, "", now);
    }
  }

  /** The level after a request, at a later time. */
  lemma LevelAfterTake(buckets: Buckets, burst: nat, r: Request, ip: string, now: int)
    requires burst >= 1 && Sound(buckets, burst, r.at) && r.at <= now
    ensures var (next, ok) := Take(buckets, burst, r.ip, r.at);
            Level(next, burst, ip, now) ==
            if r.ip == ip then
              Min(Level(buckets, burst, ip, r.at) - (if ok then SECOND else 0) + (now - r.at), burst * SECOND)
            else Level(buckets, burst, ip, now)
  {
  }

  /** The level is that of the full bucket, or the least that any earlier request of the address leaves. */
  ghost predicate IsLeast(level: int, burst: nat, reqs: seq<Request>, answers: seq<bool>, ip: string, n: nat, now: int)
    requires n <= |reqs| == |answers|
  {
    level <= burst * SECOND &&
    (forall k: nat :: k < n && reqs[k].ip == ip ==> level <= Allowance(burst, reqs, answers, ip, k, n, now)) &&
    (level == burst * SECOND ||
     exists k: nat :: k < n && reqs[k].ip == ip && level == Allowance(burst, reqs, answers, ip, k, n, now))
  }

  lemma AllowanceNext(burst: nat, reqs: seq<Request>, answers: seq<bool>, ip: string, k: nat, n: nat, now: int)
    requires k <= n < |reqs| == |answers|
    ensures Allowance(burst, reqs, answers, ip, k, n + 1, now) ==
            (if k == n then burst * SECOND else Allowance(burst, reqs, answers, ip, k, n, reqs[n].at)) +
            (now - reqs[n].at) - (if reqs[n].ip == ip && answers[n] then SECOND else 0)
  {
    assert k == n ==> PassedBetween(reqs, answers, ip, k, n) == 0;
  }

  lemma LeastAfterOwn(level: int, burst: nat, reqs: seq<Request>, answers: seq<bool>, ip: string, n: nat, now: int)
    requires n < |reqs| == |answers| && reqs[n].ip == ip && IsLeast(level, burst, reqs, answers, ip, n, reqs[n].at)
    ensures IsLeast(Min(level - (if answers[n] then SECOND else 0) + (now - reqs[n].at), burst * SECOND),
                    burst, reqs, answers, ip, n + 1, now)
  {
    forall k: nat | k <= n
      ensures Allowance(burst, reqs, answers, ip, k, n + 1, now) ==
              (if k == n then burst * SECOND else Allowance(burst, reqs, answers, ip, k, n, reqs[n].at)) +
              (now - reqs[n].at) - (if answers[n] then SECOND else 0)
    {
      AllowanceNext(burst, reqs, answers, ip, k, n, now);
    }
    if level == burst * SECOND {
      AllowanceNext(burst, reqs, answers, ip, n, n, now);
      assert Allowance(burst, reqs, answers, ip, n, n + 1, now) == level - (if answers[n] then SECOND else 0) + (now - reqs[n].at);
    } else {
      var k: nat :| k < n && reqs[k].ip == ip && level == Allowance(burst, reqs, answers, ip, k, n, reqs[n].at);
      assert Allowance(burst, reqs, answers, ip, k, n + 1, now) == level - (if answers[n] then SECOND else 0) + (now - reqs[n].at);
    }
  }

  lemma LeastAfterOther(level: int, burst: nat, reqs: seq<Request>, answers: seq<bool>, ip: string, n: nat, now: int)
    requires n < |reqs| == |answers| && reqs[n].ip != ip && IsLeast(level, burst, reqs, answers, ip, n, now)
    ensures IsLeast(level, burst, reqs, answers, ip, n + 1, now)
  {
    forall k: nat | k < n
      ensures Allowance(burst, reqs, answers, ip, k, n + 1, now) == Allowance(burst, reqs, answers, ip, k, n, now)
    {
      AllowanceNext(burst, reqs, answers, ip, k, n, now);
    }
  }

  lemma LevelNext(burst: nat, reqs: seq<Request>, ip: string, n: nat, now: int)
    requires burst >= 1 && InOrder(reqs) && n < |reqs| && reqs[n].at <= now
    ensures |PlainAnswers(map[], burst, reqs)| == |reqs|
    ensures var before := After(map[], burst, reqs[..n]);
            Level(After(map[], burst, reqs[..n + 1]), burst, ip, now) ==
            if reqs[n].ip == ip then
              Min(Level(before, burst, ip, reqs[n].at) - (if PlainAnswers(map[], burst, reqs)[n] then SECOND else 0) +
                  (now - reqs[n].at), burst * SECOND)
            else Level(before, burst, ip, now)
  {
    SoundAfter(burst, reqs, n, reqs[n].at);
    AfterNext(map[], burst, reqs, n);
    LevelAfterTake(After(map[], burst, reqs[..n]), burst, reqs[n], ip, now);
  }

  lemma {:induction false} LevelIsLeast(burst: nat, reqs: seq<Request>, ip: string, n: nat, now: int)
    requires burst >= 1 && InOrder(reqs) && n <= |reqs| && (n > 0 ==> reqs[n - 1].at <= now)
    ensures |PlainAnswers(map[], burst, reqs)| == |reqs|
    ensures IsLeast(Level(After(map[], burst, reqs[..n]), burst, ip, now), burst, reqs, PlainAnswers(map[], burst, reqs), ip, n, now)
  {
    AnswersLength(map[], burst, reqs);
    if n > 0 {
      var answers := PlainAnswers(map[], burst, reqs);
      var before := After(map[], burst, reqs[..n - 1]);
      LevelNext(burst, reqs, ip, n - 1, now);
      if reqs[n - 1].ip == ip {
        LevelIsLeast(burst, reqs, ip, n - 1, reqs[n - 1].at);
        LeastAfterOwn(Level(before, burst, ip, reqs[n - 1].at), burst, reqs, answers, ip, n - 1, now);
      } else {
        LevelIsLeast(burst, reqs, ip, n - 1, now);
        LeastAfterOther(Level(before, burst, ip, now), burst, reqs, answers, ip, n - 1, now);
      }
    }
  }

  lemma {:induction false} OrderedTimes(reqs: seq<Request>, from: int)
    requires Ordered(reqs, from)
    ensures InOrder(reqs) && (reqs != [] ==> from <= reqs[0].at)
    decreases |reqs|
  {
    if reqs != [] {
      OrderedTimes(reqs[1..], reqs[0].at);
      forall i, j | 0 <= i < j < |reqs|
        ensures reqs[i].at <= reqs[j].at
      {
        assert reqs[j] == reqs[1..][j - 1];
        assert i > 0 ==> reqs[i] == reqs[1..][i - 1];
        assert j > 1 ==> reqs[1..][0].at <= reqs[1..][j - 1].at;
      }
    }
  }

  /** Main theorem: the sweeping limiter refuses a request if and only if less than one token would be left of a full
      bucket since some earlier request of the same address, with a token for each second and one spent for each
      request passed since; so `burst` requests at once always pass. */
  lemma RefusedIff(burst: nat, reqs: seq<Request>, start: int, lastSweep: int, n: nat)
    requires burst >= 1 && Ordered(reqs, start) && n < |reqs|
    ensures var answers := Answers(Limiter(map[], lastSweep), burst, reqs);
            |answers| == |reqs| &&
            (!answers[n] <==> exists k: nat :: k < n && reqs[k].ip == reqs[n].ip &&
                                               Allowance(burst, reqs, answers, reqs[n].ip, k, n, reqs[n].at) < SECOND)
  {
    EvictionIsInvisible(burst, reqs, start, lastSweep);
    OrderedTimes(reqs, start);
    AfterNext(map[], burst, reqs, n);
    LevelIsLeast(burst, reqs, reqs[n].ip, n, reqs[n].at);
    PassesAtOne(After(map[], burst, reqs[..n]), burst, reqs[n].ip, reqs[n].at);
  }

  lemma PassesAtOne(buckets: Buckets, burst: nat, ip: string, now: int)
    requires burst >= 1
    ensures Take(buckets, burst, ip, now).1 <==> Level(buckets, burst, ip, now) >= SECOND
  {
  }

  // ---------- The limiter as the program has it ----------

  class IpLimiter {
    const burst: nat
    var buckets: Buckets
    var lastSweep: int

    constructor (burst: nat, epoch: int)
      ensures this.burst == burst && State() == Limiter(map[], epoch)
    {
      this.burst, buckets, lastSweep := burst, map[], epoch;
    }

    function State(): Limiter
      reads this
    {
      Limiter(buckets, lastSweep)
    }

    /** Deleting idle buckets one by one, in any order. */
    method Sweep(now: int)
      modifies this
      ensures buckets == Swept(old(buckets), burst, now) && lastSweep == now
    {
      var todo := buckets.Keys;
      ghost var before := buckets;
      while todo != {}
        invariant todo <= buckets.Keys <= before.Keys
        invariant forall ip :: ip in buckets ==> buckets[ip] == before[ip]
        invariant forall ip :: ip in before && ip !in todo ==> (ip in buckets <==> now - before[ip].last < Ttl(burst))
        decreases todo
      {
        var ip :| ip in todo;
        todo := todo - {ip};
        if now - buckets[ip].last >= Ttl(burst) {
          buckets := buckets - {ip};
        }
      }
      lastSweep := now;
    }

    method Allow(ip: string, now: int) returns (ok: bool)
      modifies this
      ensures (State(), ok) == Step(old(State()), burst, ip, now)
    {
      if now - lastSweep >= Ttl(burst) {
        Sweep(now);
      }
      if ip !in buckets {
        buckets := buckets[ip := Bucket((burst - 1) * SECOND, now)];
        return true;
      }
      var b := buckets[ip];
      b := b.(tokens := b.tokens + (now - b.last));
      if b.tokens > burst * SECOND {
        b := b.(tokens := burst * SECOND);
      }
      b := b.(last := now);
      if b.tokens < SECOND {
        buckets := buckets[ip := b];
        return false;
      }
      b := b.(tokens := b.tokens - SECOND);
      buckets := buckets[ip := b];
      return true;
    }
  }
}
