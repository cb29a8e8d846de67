/** internal/server/entryprobe.go: an address that probes the hidden entry too often within a sliding window
    is banned. Times are nanoseconds. */
module EntryProbe {
  type Ip = string

  // ---------- One probe ----------

  /** The times after the cutoff, in order. */
  function Kept(times: seq<int>, cutoff: int): (r: seq<int>)
    ensures |r| <= |times|
  {
    if times == [] then []
    else
      var n := |times| - 1;
      if times[n] > cutoff then Kept(times[..n], cutoff) + [times[n]] else Kept(times[..n], cutoff)
  }

  /** What is remembered of each address: when it probed. */
  type Hits = map<Ip, seq<int>>

  datatype Limits = Limits(max: int, window: int)

  function TimesOf(hits: Hits, ip: Ip): seq<int> {
    if ip in hits then hits[ip] else []
  }

  /** Probe: the new record, and whether the address is banned. */
  function Probed(hits: Hits, l: Limits, ip: Ip, now: int): (Hits, bool) {
    var kept := Kept(TimesOf(hits, ip), now - l.window) + [now];
    if |kept| > l.max then (hits - {ip}, true) else (hits[ip := kept], false)
  }

  // ---------- The history ----------

  datatype Probe = Probe(ip: Ip, at: int)

  ghost predicate ClockForward(h: seq<Probe>) {
    forall i, j :: 0 <= i < j < |h| ==> h[i].at <= h[j].at
  }

  function HitsAfter(h: seq<Probe>, l: Limits): Hits {
    if h == [] then map[]
    else
      var n := |h| - 1;
      Probed(HitsAfter(h[..n], l), l, h[n].ip, h[n].at).0
  }

  /** What the guard does at the last probe of h. */
  predicate BannedNow(h: seq<Probe>, l: Limits)
    requires h != []
  {
    var n := |h| - 1;
    Probed(HitsAfter(h[..n], l), l, h[n].ip, h[n].at).1
  }

  /** The probes at which the guard bans. */
  function GuardBans(h: seq<Probe>, l: Limits): set<nat> {
    if h == [] then {}
    else
      var n := |h| - 1;
      GuardBans(h[..n], l) + if BannedNow(h, l) then {n} else {}
  }

  /** The probes of an address before k, later than the cutoff and with no ban of it at or after them. */
  function Since(h: seq<Probe>, bans: set<nat>, ip: Ip, cutoff: int, k: nat): set<nat>
    requires k <= |h|
  {
    set i: nat | i < k && h[i].ip == ip && h[i].at > cutoff && !BannedIn(h, bans, ip, i, k)
  }

  predicate BannedIn(h: seq<Probe>, bans: set<nat>, ip: Ip, i: nat, k: nat)
    requires k <= |h|
  {
    exists j | i <= j < k :: j in bans && h[j].ip == ip
  }

  /** The specification, by the history alone: the probes of the same address since its last ban that lie in the
      window which ends at k, this one included, are more than max. */
  predicate Due(h: seq<Probe>, l: Limits, bans: set<nat>, k: nat)
    requires k < |h|
  {
    |Since(h, bans, h[k].ip, h[k].at - l.window, k)| + 1 > l.max
  }

  /** It settles every ban: no other set of probes meets it. */
  lemma {:induction false} DueSettles(h: seq<Probe>, l: Limits, a: set<nat>, b: set<nat>, n: nat)
    requires n <= |h|
    requires forall k: nat {:trigger Due(h, l, a, k)} :: k < |h| ==> (k in a <==> Due(h, l, a, k))
    requires forall k: nat {:trigger Due(h, l, b, k)} :: k < |h| ==> (k in b <==> Due(h, l, b, k))
    ensures forall k :: 0 <= k < n ==> (k in a <==> k in b)
  {
    if n > 0 {
      DueSettles(h, l, a, b, n - 1);
      SinceSame(h, h, a, b, h[n - 1].ip, h[n - 1].at - l.window, n - 1);
      assert Due(h, l, a, n - 1) <==> Due(h, l, b, n - 1);
    }
  }

  lemma SinceSame(h: seq<Probe>, g: seq<Probe>, a: set<nat>, b: set<nat>, ip: Ip, cutoff: int, k: nat)
    requires k <= |h| && k <= |g| && h[..k] == g[..k] && forall j: nat :: j < k ==> (j in a <==> j in b)
    ensures Since(h, a, ip, cutoff, k) == Since(g, b, ip, cutoff, k)
  {
    forall j | 0 <= j < k
      ensures h[j] == g[j]
    {
      assert h[..k][j] == g[..k][j];
    }
    forall i: nat | i < k
      ensures BannedIn(h, a, ip, i, k) <==> BannedIn(g, b, ip, i, k)
    {
    }
  }

  lemma {:induction false} GuardBansBelow(h: seq<Probe>, l: Limits)
    ensures forall k :: k in GuardBans(h, l) ==> k < |h|
  {
    if h != [] {
      GuardBansBelow(h[..|h| - 1], l);
    }
  }

  lemma {:induction false} GuardBansAt(h: seq<Probe>, l: Limits, k: nat)
    requires k < |h|
    ensures k in GuardBans(h, l) <==> BannedNow(h[..k + 1], l)
  {
    var n := |h| - 1;
    GuardBansStep(h, l, k);
    if k < n {
      GuardBansAt(h[..n], l, k);
      assert h[..n][..k + 1] == h[..k + 1];
    } else {
      assert h[..k + 1] == h;
    }
  }

  lemma GuardBansStep(h: seq<Probe>, l: Limits, k: nat)
    requires k < |h|
    ensures k in GuardBans(h, l) <==> if k < |h| - 1 then k in GuardBans(h[..|h| - 1], l) else BannedNow(h, l)
  {
    GuardBansBelow(h[..|h| - 1], l);
  }

  /** The times an address probed since its last ban, none ever dropped. */
  function Pending(h: seq<Probe>, l: Limits, ip: Ip): seq<int> {
    if h == [] then []
    else
      var n := |h| - 1;
      if h[n].ip != ip then Pending(h[..n], l, ip)
      else if BannedNow(h, l) then []
      else Pending(h[..n], l, ip) + [h[n].at]
  }

  lemma KeptSnoc(times: seq<int>, t: int, cutoff: int)
    ensures Kept(times + [t], cutoff) == if t > cutoff then Kept(times, cutoff) + [t] else Kept(times, cutoff)
  {
    assert (times + [t])[..|times|] == times;
  }

  /** A later cutoff makes an earlier one superfluous. */
  lemma {:induction false} KeptTwice(times: seq<int>, early: int, late: int)
    requires early <= late
    ensures Kept(Kept(times, early), late) == Kept(times, late)
  {
    if times != [] {
      var n := |times| - 1;
      KeptTwice(times[..n], early, late);
      if times[n] > early {
        KeptSnoc(Kept(times[..n], early), times[n], late);
      }
    }
  }

  lemma SinceStep(h: seq<Probe>, bans: set<nat>, ip: Ip, cutoff: int, n: nat)
    requires n < |h|
    ensures Since(h, bans, ip, cutoff, n + 1) ==
            if h[n].ip != ip then Since(h, bans, ip, cutoff, n)
            else if n in bans then {}
            else if h[n].at > cutoff then Since(h, bans, ip, cutoff, n) + {n}
            else Since(h, bans, ip, cutoff, n)
  {
    if h[n].ip == ip && n in bans {
      assert forall i: nat {:trigger BannedIn(h, bans, ip, i, n + 1)} :: i < n + 1 ==> BannedIn(h, bans, ip, i, n + 1);
    } else {
      assert forall i: nat :: i <= n ==> (BannedIn(h, bans, ip, i, n + 1) <==> BannedIn(h, bans, ip, i, n));
    }
  }

  lemma SinceFront(h: seq<Probe>, l: Limits, ip: Ip, cutoff: int)
    requires h != []
    ensures Since(h, GuardBans(h, l), ip, cutoff, |h| - 1) ==
            Since(h[..|h| - 1], GuardBans(h[..|h| - 1], l), ip, cutoff, |h| - 1)
  {
    var n := |h| - 1;
    SinceSame(h, h[..n], GuardBans(h, l), GuardBans(h[..n], l), ip, cutoff, n);
  }

  /** Counting probes and counting remembered times is the same. */
  lemma {:induction false} SinceIsPending(h: seq<Probe>, l: Limits, ip: Ip, cutoff: int)
    ensures |Since(h, GuardBans(h, l), ip, cutoff, |h|)| == |Kept(Pending(h, l, ip), cutoff)|
  {
    if h == [] {
      assert Since(h, GuardBans(h, l), ip, cutoff, 0) == {};
    } else {
      var n := |h| - 1;
      SinceIsPending(h[..n], l, ip, cutoff);
      SinceFront(h, l, ip, cutoff);
      SinceStep(h, GuardBans(h, l), ip, cutoff, n);
      KeptSnoc(Pending(h[..n], l, ip), h[n].at, cutoff);
      GuardBansBelow(h[..n], l);
    }
  }

  /** What the guard remembers of an address counts as much as its history, from this cutoff on. */
  ghost predicate Agree(h: seq<Probe>, l: Limits, ip: Ip, cutoff: int) {
    Kept(TimesOf(HitsAfter(h, l), ip), cutoff) == Kept(Pending(h, l, ip), cutoff)
  }

  /** So it is with every cutoff that may still be used. */
  ghost predicate Remembers(h: seq<Probe>, l: Limits) {
    forall ip, cutoff :: (h == [] || h[|h| - 1].at - l.window <= cutoff) ==> Agree(h, l, ip, cutoff)
  }

  lemma HitsStep(h: seq<Probe>, l: Limits, ip: Ip)
    requires h != []
    ensures var n := |h| - 1;
            var before := TimesOf(HitsAfter(h[..n], l), ip);
            TimesOf(HitsAfter(h, l), ip) ==
            if h[n].ip != ip then before
            else if BannedNow(h, l) then []
            else Kept(before, h[n].at - l.window) + [h[n].at]
  {
  }

  lemma KeptAgree(times: seq<int>, all: seq<int>, at: int, early: int, cutoff: int)
    requires early <= cutoff && Kept(times, early) == Kept(all, early)
    ensures Kept(Kept(times, early) + [at], cutoff) == Kept(all + [at], cutoff)
  {
    KeptSnoc(Kept(times, early), at, cutoff);
    KeptSnoc(all, at, cutoff);
    KeptTwice(all, early, cutoff);
  }

  lemma {:induction false} AlwaysRemembers(h: seq<Probe>, l: Limits)
    requires ClockForward(h)
    ensures Remembers(h, l)
  {
    if h != [] {
      var n := |h| - 1;
      AlwaysRemembers(h[..n], l);
      forall ip, cutoff | h[n].at - l.window <= cutoff
        ensures Agree(h, l, ip, cutoff)
      {
        assert Agree(h[..n], l, ip, cutoff);
        assert Agree(h[..n], l, ip, h[n].at - l.window);
        StillAgree(h, l, ip, cutoff);
      }
    }
  }

  lemma StillAgree(h: seq<Probe>, l: Limits, ip: Ip, cutoff: int)
    requires h != [] && h[|h| - 1].at - l.window <= cutoff
    requires Agree(h[..|h| - 1], l, ip, cutoff) && Agree(h[..|h| - 1], l, ip, h[|h| - 1].at - l.window)
    ensures Agree(h, l, ip, cutoff)
  {
    var n := |h| - 1;
    HitsStep(h, l, ip);
    if h[n].ip == ip && !BannedNow(h, l) {
      KeptAgree(TimesOf(HitsAfter(h[..n], l), ip), Pending(h[..n], l, ip), h[n].at, h[n].at - l.window, cutoff);
    }
  }

  lemma CountedBefore(h: seq<Probe>, l: Limits)
    requires h != [] && ClockForward(h)
    ensures var n := |h| - 1;
            |Since(h, GuardBans(h, l), h[n].ip, h[n].at - l.window, n)| ==
            |Kept(TimesOf(HitsAfter(h[..n], l), h[n].ip), h[n].at - l.window)|
  {
    var n := |h| - 1;
    SinceFront(h, l, h[n].ip, h[n].at - l.window);
    CountedInFront(h[..n], l, h[n].ip, h[n].at - l.window);
  }

  lemma CountedInFront(front: seq<Probe>, l: Limits, ip: Ip, cutoff: int)
    requires ClockForward(front) && (front == [] || front[|front| - 1].at - l.window <= cutoff)
    ensures |Since(front, GuardBans(front, l), ip, cutoff, |front|)| == |Kept(TimesOf(HitsAfter(front, l), ip), cutoff)|
  {
    AlwaysRemembers(front, l);
    assert Agree(front, l, ip, cutoff);
    SinceIsPending(front, l, ip, cutoff);
  }

  lemma NewestIsDue(h: seq<Probe>, l: Limits)
    requires h != [] && ClockForward(h)
    ensures BannedNow(h, l) <==> Due(h, l, GuardBans(h, l), |h| - 1)
  {
    CountedBefore(h, l);
  }

  lemma GuardBansPrefix(h: seq<Probe>, l: Limits, n: nat, j: nat)
    requires j < n <= |h|
    ensures j in GuardBans(h, l) <==> j in GuardBans(h[..n], l)
  {
    GuardBansAt(h, l, j);
    GuardBansAt(h[..n], l, j);
    assert h[..n][..j + 1] == h[..j + 1];
  }

  lemma GuardBansPrefixes(h: seq<Probe>, l: Limits, n: nat)
    requires n <= |h|
    ensures forall j: nat :: j < n ==> (j in GuardBans(h, l) <==> j in GuardBans(h[..n], l))
  {
    forall j: nat | j < n
      ensures j in GuardBans(h, l) <==> j in GuardBans(h[..n], l)
    {
      GuardBansPrefix(h, l, n, j);
    }
  }

  lemma DueInPrefix(h: seq<Probe>, l: Limits, a: set<nat>, b: set<nat>, k: nat)
    requires k < |h| && forall j: nat :: j < k + 1 ==> (j in a <==> j in b)
    ensures Due(h, l, a, k) <==> Due(h[..k + 1], l, b, k)
  {
    assert h[..k] == h[..k + 1][..k];
    SinceSame(h, h[..k + 1], a, b, h[k].ip, h[k].at - l.window, k);
  }

  /** Main theorem: with fixed limits and a clock that never goes back, the guard bans at exactly the probes that
      are due by the history. */
  lemma BansExactlyWhenDue(h: seq<Probe>, l: Limits, k: nat)
    requires ClockForward(h) && k < |h|
    ensures k in GuardBans(h, l) <==> Due(h, l, GuardBans(h, l), k)
  {
    GuardBansAt(h, l, k);
    NewestIsDue(h[..k + 1], l);
    GuardBansPrefixes(h, l, k + 1);
    DueInPrefix(h, l, GuardBans(h, l), GuardBans(h[..k + 1], l), k);
  }

  /** At most max times are remembered of an address, each of them once, and none of one just banned. */
  lemma {:induction false} AtMostMaxRemembered(h: seq<Probe>, l: Limits)
    ensures forall ip :: ip in HitsAfter(h, l) ==> 0 < |HitsAfter(h, l)[ip]| <= l.max
    ensures h != [] && BannedNow(h, l) ==> h[|h| - 1].ip !in HitsAfter(h, l)
  {
    if h != [] {
      AtMostMaxRemembered(h[..|h| - 1], l);
    }
  }

  lemma SameButOne(a: Hits, b: Hits, ip: Ip, times: seq<int>)
    requires a - {ip} == b - {ip}
    ensures a[ip := times] == b[ip := times]
  {
    forall other | other != ip
      ensures (other in a <==> other in b) && (other in a ==> a[other] == b[other])
    {
      assert other in a - {ip} <==> other in b - {ip};
    }
  }

  // ---------- The guard as the program has it ----------

  /** A slice: the first `len` cells of its array. */
  datatype Slice = Slice(data: array<int>, len: nat)

  /** The loop of Probe: the times after the cutoff move to the front of their own array. */
  method CompactInPlace(data: array<int>, len: nat, cutoff: int) returns (n: nat)
    requires len <= data.Length
    modifies data
    ensures n <= len && data[..n] == Kept(old(data[..len]), cutoff)
  {
    n := 0;
    ghost var was := data[..len];
    for i := 0 to len
      invariant n <= i && data[..n] == Kept(was[..i], cutoff)
      invariant forall k :: i <= k < len ==> data[k] == was[k]
    {
      assert was[..i + 1][..i] == was[..i];
      if data[i] > cutoff {
        data[n] := data[i];
        n := n + 1;
        assert data[..n] == Kept(was[..i], cutoff) + [was[i]];
      }
    }
    assert was[..len] == was;
  }

  class EntryProbeGuard {
    var limits: Limits
    var hits: map<Ip, Slice>

    ghost function Arrays(): set<object>
      reads this
    {
      set ip | ip in hits :: hits[ip].data as object
    }

    /** Every address has an array of its own. */
    ghost predicate Valid()
      reads this
    {
      (forall ip :: ip in hits ==> hits[ip].len <= hits[ip].data.Length) &&
      forall ip, other :: ip in hits && other in hits && ip != other ==> hits[ip].data != hits[other].data
    }

    ghost function View(): Hits
      requires Valid()
      reads this, Arrays()
    {
      map ip | ip in hits :: hits[ip].data[..hits[ip].len]
    }

    constructor (max: int, window: int)
      ensures Valid() && View() == map[] && limits == Limits(max, window)
    {
      limits, hits := Limits(max, window), map[];
    }

    method SetThresholds(max: int, window: int)
      requires Valid()
      modifies this`limits
      ensures Valid() && View() == old(View()) && limits == Limits(max, window)
    {
      limits := Limits(max, window);
    }

    /** append: in place while the array has room, else into a new one. */
    method Append(s: Slice, t: int) returns (r: Slice)
      requires s.len <= s.data.Length
      modifies s.data
      ensures r.len == s.len + 1 <= r.data.Length && r.data[..r.len] == old(s.data[..s.len]) + [t]
      ensures r.data == s.data || fresh(r.data)
    {
      var data := s.data;
      if s.len == s.data.Length {
        data := new int[2 * s.len + 1];
        for i := 0 to s.len
          invariant forall k :: 0 <= k < i ==> data[k] == s.data[k]
          invariant s.data[..] == old(s.data[..])
        {
          data[i] := s.data[i];
        }
      }
      data[s.len] := t;
      r := Slice(data, s.len + 1);
    }

    /** The times the address may still be counted for, in its own array, and the current one. */
    method Record(ip: Ip, now: int) returns (kept: Slice)
      requires Valid()
      modifies Arrays()
      ensures Valid() && kept.len <= kept.data.Length
      ensures kept.data[..kept.len] == Kept(TimesOf(old(View()), ip), now - limits.window) + [now]
      ensures fresh(kept.data) || (ip in hits && kept.data == hits[ip].data)
      ensures View() - {ip} == old(View()) - {ip}
    {
      if ip in hits {
        var s := hits[ip];
        assert s.data as object in Arrays();
        assert s.data[..s.len] == TimesOf(View(), ip);
        var n := CompactInPlace(s.data, s.len, now - limits.window);
        kept := Append(Slice(s.data, n), now);
      } else {
        var empty := new int[0];
        kept := Append(Slice(empty, 0), now);
      }
    }

    /** Probe. */
    method ProbeAddress(ip: Ip, now: int) returns (banned: bool)
      requires Valid()
      modifies this, Arrays()
      ensures Valid() && limits == old(limits)
      ensures (View(), banned) == Probed(old(View()), limits, ip, now)
    {
      ghost var before := View();
      var kept := Record(ip, now);
      ghost var times := kept.data[..kept.len];
      SameButOne(before, View(), ip, times);
      banned := kept.len > limits.max;
      if banned {
        Forget(ip);
      } else {
        Remember(ip, kept);
      }
      assert View() == if banned then before - {ip} else before[ip := times];
    }

    method Forget(ip: Ip)
      requires Valid()
      modifies this`hits
      ensures Valid() && View() == old(View()) - {ip}
    {
      hits := hits - {ip};
    }

    method Remember(ip: Ip, kept: Slice)
      requires Valid() && kept.len <= kept.data.Length
      requires forall other :: other in hits && other != ip ==> hits[other].data != kept.data
      modifies this`hits
      ensures Valid() && View() == old(View())[ip := kept.data[..kept.len]]
    {
      hits := hits[ip := kept];
    }
  }
}
