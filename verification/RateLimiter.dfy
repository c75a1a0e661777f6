/** The per-address sliding window of the proxy server.

    Times are nanoseconds of the monotonic clock. A request reads the clock before it takes
    the lock, so that times are nondecreasing in lock order is an explicit assumption of the
    lemmas about runs. Which of several equally old addresses is evicted depends on the
    iteration order of the map and is left open. */
module RateLimiter {
  import opened Text

  type Ip = nat
  type Instant = nat
  type Table = map<Ip, seq<Instant>>

  const WINDOW: nat := 60_000_000_000
  const MAX_TRACKED_IPS: nat := 4096
  const U32: nat := 0x1_0000_0000

  /** `saturating_duration_since`. */
  function Since(now: Instant, t: Instant): nat {
    if now < t then 0 else now - t
  }

  function Recent(times: seq<Instant>, now: Instant): (r: seq<Instant>)
    ensures |r| <= |times|
  {
    if times == [] then [] else
      var t := times[|times| - 1];
      Recent(times[..|times| - 1], now) + (if Since(now, t) < WINDOW then [t] else [])
  }

  /** What pruning keeps before it looks at the number of addresses. */
  function Retained(m: Table, now: Instant): Table {
    map ip | ip in m && Recent(m[ip], now) != [] :: Recent(m[ip], now)
  }

  function LastUse(times: seq<Instant>, now: Instant): Instant {
    if times == [] then now else times[|times| - 1]
  }

  /** At most one address is evicted, and only when there are too many: one that has gone
      unused longest. */
  predicate EvictionOk(m: Table, now: Instant, evicted: Option<Ip>) {
    if |m| <= MAX_TRACKED_IPS then evicted == None
    else evicted.Some? && evicted.value in m
         && forall ip :: ip in m ==> LastUse(m[evicted.value], now) <= LastUse(m[ip], now)
  }

  function Without(m: Table, evicted: Option<Ip>): Table {
    if evicted.Some? then m - {evicted.value} else m
  }

  // ---------------------------------------------------------------- the code

  method RetainRecent(times: seq<Instant>, now: Instant) returns (r: seq<Instant>)
    ensures r == Recent(times, now)
  {
    r := [];
    for i := 0 to |times|
      invariant r == Recent(times[..i], now)
    {
      assert times[..i + 1][..i] == times[..i];
      if Since(now, times[i]) < WINDOW {
        r := r + [times[i]];
      }
    }
    assert times[..|times|] == times;
  }

  /** Prunes every list in place, then removes the addresses whose list became empty. */
  method RetainAll(m: Table, now: Instant) returns (kept: Table)
    ensures kept == Retained(m, now)
  {
    var work := m;
    var ips, empty := m.Keys, {};
    while ips != {}
      invariant ips <= m.Keys && work.Keys == m.Keys
      invariant forall ip :: ip in m ==> work[ip] == if ip in ips then m[ip] else Recent(m[ip], now)
      invariant forall ip :: ip in empty <==> ip in m && ip !in ips && Recent(m[ip], now) == []
      decreases |ips|
    {
      var ip :| ip in ips;
      ips := ips - {ip};
      var times := RetainRecent(work[ip], now);
      work := work[ip := times];
      if times == [] {
        empty := empty + {ip};
      }
    }
    kept := work - empty;
    RetainedFrom(m, now, work, empty);
  }

  lemma RetainedFrom(m: Table, now: Instant, work: Table, empty: set<Ip>)
    requires work.Keys == m.Keys && forall ip :: ip in m ==> work[ip] == Recent(m[ip], now)
    requires forall ip :: ip in empty <==> ip in m && Recent(m[ip], now) == []
    ensures work - empty == Retained(m, now)
  {
    assert (work - empty).Keys == Retained(m, now).Keys;
  }

  method Oldest(m: Table, now: Instant) returns (victim: Ip)
    requires m.Keys != {}
    ensures victim in m && forall ip :: ip in m ==> LastUse(m[victim], now) <= LastUse(m[ip], now)
  {
    victim :| victim in m.Keys;
    var rest := m.Keys - {victim};
    while rest != {}
      invariant rest <= m.Keys && victim in m
      invariant forall ip :: ip in m && ip !in rest ==> LastUse(m[victim], now) <= LastUse(m[ip], now)
      decreases |rest|
    {
      var ip :| ip in rest;
      rest := rest - {ip};
      if LastUse(m[ip], now) < LastUse(m[victim], now) {
        victim := ip;
      }
    }
  }

  class Limiter {
    const limit: Option<nat>
    var entries: Table

    constructor (limit: Option<nat>)
      ensures this.limit == limit && entries == map[]
    {
      this.limit := limit;
      entries := map[];
    }

    /** `prune_rate_limiter_locked`; `evicted` names the address it removed for room. */
    method Prune(now: Instant) returns (evicted: Option<Ip>)
      modifies this`entries
      ensures limit.None? ==> entries == old(entries) && evicted == None
      ensures limit.Some? ==> EvictionOk(Retained(old(entries), now), now, evicted)
                              && entries == Without(Retained(old(entries), now), evicted)
    {
      evicted := None;
      if limit.None? {
        return;
      }
      var kept := RetainAll(entries, now);
      entries := kept;
      if |entries| > MAX_TRACKED_IPS {
        var oldest := Oldest(entries, now);
        evicted := Some(oldest);
        entries := entries - {oldest};
      }
    }

    /** `check_rate_limit`, from taking the lock to releasing it. */
    method Check(ip: Ip, now: Instant) returns (accepted: bool, evicted: Option<Ip>)
      requires limit.Some? ==> limit.value < U32
      modifies this`entries
      ensures limit.None? || limit.value == 0 ==> accepted && entries == old(entries) && evicted == None
      ensures limit.Some? && limit.value > 0 ==>
                Next(limit.value, old(entries), Event(Request(ip, accepted), now, evicted), entries)
    {
      evicted := None;
      if limit.None? || limit.value == 0 {
        return true, None;
      }
      evicted := Prune(now);
      if ip !in entries {
        entries := entries[ip := []];
      }
      if |entries[ip]| % U32 >= limit.value {
        return false, evicted;
      }
      entries := entries[ip := entries[ip] + [now]];
      return true, evicted;
    }
  }

  // ---------------------------------------------------------------- runs

  datatype Kind = Background | Request(ip: Ip, accepted: bool)

  datatype Event = Event(kind: Kind, now: Instant, evicted: Option<Ip>)

  function TimesOf(m: Table, ip: Ip): seq<Instant> {
    if ip in m then m[ip] else []
  }

  predicate Next(limit: nat, m: Table, e: Event, n: Table) {
    var kept := Without(Retained(m, e.now), e.evicted);
    && EvictionOk(Retained(m, e.now), e.now, e.evicted)
    && match e.kind
       case Background => n == kept
       case Request(ip, accepted) =>
         var times := TimesOf(kept, ip);
         && (accepted <==> |times| % U32 < limit)
         && n == kept[ip := if accepted then times + [e.now] else times]
  }

  /** Requests and background pruning, in lock order. The clock may have been read in another
      order, so that times need not grow. */
  predicate Run(limit: nat, ms: seq<Table>, es: seq<Event>) {
    && |ms| == |es| + 1 && ms[0] == map[]
    && forall i :: 0 <= i < |es| ==> Next(limit, ms[i], es[i], ms[i + 1])
  }

  predicate AcceptedFor(e: Event, ip: Ip) {
    e.kind == Request(ip, true)
  }

  lemma RetainedTimes(m: Table, now: Instant, ip: Ip)
    ensures TimesOf(Retained(m, now), ip) == Recent(TimesOf(m, ip), now)
  {
  }

  /** The times of `ip` that a decision at event `e` sees. */
  function Seen(times: seq<Instant>, e: Event, ip: Ip): seq<Instant> {
    if e.evicted == Some(ip) then [] else Recent(times, e.now)
  }

  function After(times: seq<Instant>, e: Event, ip: Ip): seq<Instant> {
    Seen(times, e, ip) + (if AcceptedFor(e, ip) then [e.now] else [])
  }

  predicate DecidedBy(limit: nat, times: seq<Instant>, e: Event, ip: Ip) {
    e.kind.Request? && e.kind.ip == ip ==> (e.kind.accepted <==> |Seen(times, e, ip)| % U32 < limit)
  }

  /** One event, seen from one address. */
  lemma StepTimes(limit: nat, m: Table, e: Event, n: Table, ip: Ip)
    requires Next(limit, m, e, n)
    ensures TimesOf(n, ip) == After(TimesOf(m, ip), e, ip) && DecidedBy(limit, TimesOf(m, ip), e, ip)
  {
    RetainedTimes(m, e.now, ip);
    assert TimesOf(Without(Retained(m, e.now), e.evicted), ip) == Seen(TimesOf(m, ip), e, ip);
  }

  predicate Ordered(es: seq<Event>) {
    forall i, j :: 0 <= i < j < |es| ==> es[i].now <= es[j].now
  }

  /** A run, seen from one address. */
  predicate View(limit: nat, ts: seq<seq<Instant>>, es: seq<Event>, ip: Ip) {
    && |ts| == |es| + 1 && ts[0] == []
    && forall k :: 0 <= k < |es| ==> ts[k + 1] == After(ts[k], es[k], ip) && DecidedBy(limit, ts[k], es[k], ip)
  }

  function Project(ms: seq<Table>, ip: Ip): (ts: seq<seq<Instant>>)
    ensures |ts| == |ms| && forall k :: 0 <= k < |ms| ==> ts[k] == TimesOf(ms[k], ip)
  {
    seq(|ms|, k requires 0 <= k < |ms| => TimesOf(ms[k], ip))
  }

  lemma RunIsView(limit: nat, ms: seq<Table>, es: seq<Event>, ip: Ip)
    requires Run(limit, ms, es)
    ensures View(limit, Project(ms, ip), es, ip)
  {
    var ts := Project(ms, ip);
    forall k | 0 <= k < |es| ensures ts[k + 1] == After(ts[k], es[k], ip) && DecidedBy(limit, ts[k], es[k], ip) {
      StepTimes(limit, ms[k], es[k], ms[k + 1], ip);
    }
  }

  lemma {:induction false} ListBounded(limit: nat, ts: seq<seq<Instant>>, es: seq<Event>, ip: Ip, k: nat)
    requires View(limit, ts, es, ip) && k <= |es| && limit < U32
    ensures |ts[k]| <= limit
  {
    if k > 0 {
      ListBounded(limit, ts, es, ip, k - 1);
      assert ts[k] == After(ts[k - 1], es[k - 1], ip) && DecidedBy(limit, ts[k - 1], es[k - 1], ip);
    }
  }

  lemma Decided(limit: nat, times: seq<Instant>, e: Event, ip: Ip)
    requires DecidedBy(limit, times, e, ip) && e.kind.Request? && e.kind.ip == ip
    requires 0 < limit < U32 && |times| <= limit
    ensures e.kind.accepted <==> |Seen(times, e, ip)| < limit
  {
  }

  // ---------------------------------------------------------------- by the events alone

  /** The times of the events below `m` that `p` picks, in order. */
  function Picked(es: seq<Event>, p: nat -> bool, m: nat): seq<Instant>
    requires m <= |es|
  {
    if m == 0 then [] else Picked(es, p, m - 1) + (if p(m - 1) then [es[m - 1].now] else [])
  }

  lemma {:induction false} PickedNone(es: seq<Event>, p: nat -> bool, m: nat)
    requires m <= |es| && forall j: nat :: j < m ==> !p(j)
    ensures Picked(es, p, m) == []
  {
    if m > 0 {
      PickedNone(es, p, m - 1);
    }
  }

  function Below(p: nat -> bool, m: nat): set<nat> {
    set j: nat | j < m && p(j)
  }

  lemma {:induction false} PickedCount(es: seq<Event>, p: nat -> bool, m: nat)
    requires m <= |es|
    ensures |Picked(es, p, m)| == |Below(p, m)|
  {
    if m == 0 {
      assert Below(p, 0) == {};
    } else {
      var n := m - 1;
      PickedCount(es, p, n);
      assert Below(p, m) == Below(p, n) + (if p(n) then {n} else {});
    }
  }

  lemma RecentSnoc(times: seq<Instant>, t: Instant, now: Instant)
    ensures Recent(times + [t], now) == Recent(times, now) + (if now - t < WINDOW then [t] else [])
  {
    assert (times + [t])[..|times|] == times;
  }

  /** Cutting a list to the window is picking the events in the window. */
  lemma {:induction false} RecentPicked(es: seq<Event>, p: nat -> bool, q: nat -> bool, m: nat, now: Instant)
    requires m <= |es| && forall j: nat :: j < m ==> (q(j) <==> p(j) && now - es[j].now < WINDOW)
    ensures Recent(Picked(es, p, m), now) == Picked(es, q, m)
  {
    if m > 0 {
      var n := m - 1;
      RecentPicked(es, p, q, n, now);
      RecentSnoc(Picked(es, p, n), es[n].now, now);
      assert Picked(es, p, n) + [] == Picked(es, p, n) && Picked(es, q, n) + [] == Picked(es, q, n);
    }
  }

  /** Event `j` accepted a request of `ip`, and no event between `j` and `k` evicted the address
      or found the request out of the window. */
  predicate Survives(es: seq<Event>, ip: Ip, j: nat, k: nat) {
    && j < k <= |es| && AcceptedFor(es[j], ip)
    && forall i :: j < i < k ==> es[i].evicted != Some(ip) && es[i].now - es[j].now < WINDOW
  }

  function Surviving(es: seq<Event>, ip: Ip, k: nat): nat -> bool {
    (j: nat) => Survives(es, ip, j, k)
  }

  lemma SurvivesStep(es: seq<Event>, ip: Ip, j: nat, k: nat, next: nat)
    requires next == k + 1 <= |es| && j < k
    ensures Survives(es, ip, j, next)
            <==> Survives(es, ip, j, k) && es[k].evicted != Some(ip) && es[k].now - es[j].now < WINDOW
  {
  }

  lemma SeenSurvivors(es: seq<Event>, ip: Ip, k: nat, next: nat)
    requires next == k + 1 <= |es|
    ensures Seen(Picked(es, Surviving(es, ip, k), k), es[k], ip) == Picked(es, Surviving(es, ip, next), k)
  {
    var p, q := Surviving(es, ip, k), Surviving(es, ip, next);
    forall j: nat | j < k ensures q(j) <==> p(j) && es[k].evicted != Some(ip) && es[k].now - es[j].now < WINDOW {
      SurvivesStep(es, ip, j, k, next);
    }
    if es[k].evicted == Some(ip) {
      PickedNone(es, q, k);
    } else {
      RecentPicked(es, p, q, k, es[k].now);
    }
  }

  /** The list of an address is exactly the times of its accepted requests that neither an
      eviction nor the window has taken out, in whatever order the clock was read. */
  lemma {:induction false} ListIsSurvivors(limit: nat, ts: seq<seq<Instant>>, es: seq<Event>, ip: Ip, k: nat)
    requires View(limit, ts, es, ip) && k <= |es|
    ensures ts[k] == Picked(es, Surviving(es, ip, k), k)
  {
    if k > 0 {
      var n := k - 1;
      ListIsSurvivors(limit, ts, es, ip, n);
      SeenSurvivors(es, ip, n, k);
      assert ts[k] == After(ts[n], es[n], ip);
      assert Surviving(es, ip, k)(n) <==> AcceptedFor(es[n], ip);
    }
  }

  lemma SeenCount(limit: nat, ts: seq<seq<Instant>>, es: seq<Event>, ip: Ip, k: nat, next: nat)
    requires View(limit, ts, es, ip) && next == k + 1 <= |es|
    ensures |Seen(ts[k], es[k], ip)| == |set j: nat | j < k && Survives(es, ip, j, next)|
  {
    ListIsSurvivors(limit, ts, es, ip, k);
    SeenSurvivors(es, ip, k, next);
    PickedCount(es, Surviving(es, ip, next), k);
    assert Below(Surviving(es, ip, next), k) == set j: nat | j < k && Survives(es, ip, j, next);
  }

  /** A request is accepted exactly when fewer than `limit` requests of its address survive,
      its own pruning included. */
  lemma DecidesAnyOrder(limit: nat, ms: seq<Table>, es: seq<Event>, ip: Ip, accepted: bool, k: nat, next: nat)
    requires Run(limit, ms, es) && 0 < limit < U32 && next == k + 1 <= |es| && es[k].kind == Request(ip, accepted)
    ensures accepted <==> |set j: nat | j < k && Survives(es, ip, j, next)| < limit
  {
    var ts := Project(ms, ip);
    RunIsView(limit, ms, es, ip);
    SeenCount(limit, ts, es, ip, k, next);
    ListBounded(limit, ts, es, ip, k);
    Decided(limit, ts[k], es[k], ip);
  }

  /** Request `j` of `ip` was accepted less than the window before event `k`, and the address was
      not evicted since. */
  predicate InWindow(es: seq<Event>, ip: Ip, j: nat, k: nat) {
    && j < k < |es| && AcceptedFor(es[j], ip) && es[k].now - es[j].now < WINDOW
    && forall i :: j < i <= k ==> es[i].evicted != Some(ip)
  }

  lemma OrderedSurvives(es: seq<Event>, ip: Ip, j: nat, k: nat, next: nat)
    requires Ordered(es) && next == k + 1 <= |es| && j < k
    ensures Survives(es, ip, j, next) <==> InWindow(es, ip, j, k)
  {
    if InWindow(es, ip, j, k) {
      forall i | j < i < next ensures es[i].now - es[j].now < WINDOW {
        assert i == k || es[i].now <= es[k].now;
      }
    }
  }

  /** With times that grow: a request is accepted exactly when fewer than `limit` requests of its
      address were accepted less than the window before it and since its last eviction. */
  lemma DecidesExactly(limit: nat, ms: seq<Table>, es: seq<Event>, ip: Ip, accepted: bool, k: nat)
    requires Run(limit, ms, es) && Ordered(es) && 0 < limit < U32 && k < |es| && es[k].kind == Request(ip, accepted)
    ensures accepted <==> |set j: nat | j < k && InWindow(es, ip, j, k)| < limit
  {
    var next := k + 1;
    DecidesAnyOrder(limit, ms, es, ip, accepted, k, next);
    forall j: nat | j < k ensures Survives(es, ip, j, next) <==> InWindow(es, ip, j, k) {
      OrderedSurvives(es, ip, j, k, next);
    }
    assert (set j: nat | j < k && Survives(es, ip, j, next)) == set j: nat | j < k && InWindow(es, ip, j, k);
  }

  /** An address that has been quiet for the window comes through. */
  lemma QuietComesThrough(limit: nat, ms: seq<Table>, es: seq<Event>, ip: Ip, accepted: bool, k: nat)
    requires Run(limit, ms, es) && Ordered(es) && 0 < limit < U32 && k < |es| && es[k].kind == Request(ip, accepted)
    requires forall j :: 0 <= j < k && AcceptedFor(es[j], ip) ==> es[k].now - es[j].now >= WINDOW
    ensures accepted
  {
    DecidesExactly(limit, ms, es, ip, accepted, k);
    assert (set j: nat | j < k && InWindow(es, ip, j, k)) == {};
  }

  function AcceptedIn(es: seq<Event>, ip: Ip, i: nat, j: nat): set<nat> {
    set m: nat | i <= m < j <= |es| && AcceptedFor(es[m], ip)
  }

  lemma {:induction false} Smaller<T>(a: set<T>, b: set<T>)
    requires a <= b
    ensures |a| <= |b|
  {
    if a != {} {
      var x :| x in a;
      Smaller(a - {x}, b - {x});
    }
  }

  /** Any `limit + 1` accepted requests of one address that is not evicted in between span
      at least the window. */
  lemma AcceptedSpanWindow(limit: nat, ms: seq<Table>, es: seq<Event>, ip: Ip, i: nat, j: nat)
    requires Run(limit, ms, es) && Ordered(es) && 0 < limit < U32
    requires i < j < |es| && AcceptedFor(es[i], ip) && AcceptedFor(es[j], ip)
    requires |AcceptedIn(es, ip, i, j)| == limit
    requires forall k :: i < k <= j ==> es[k].evicted != Some(ip)
    ensures es[j].now - es[i].now >= WINDOW
  {
    DecidesExactly(limit, ms, es, ip, true, j);
    var seen := set m: nat | m < j && InWindow(es, ip, m, j);
    if es[j].now - es[i].now < WINDOW {
      forall m | m in AcceptedIn(es, ip, i, j) ensures m in seen {
        assert m == i || es[i].now <= es[m].now;
      }
      Smaller(AcceptedIn(es, ip, i, j), seen);
    }
  }

  // ---------------------------------------------------------------- evictions

  /** Request `j` of `ip` is younger than the window at event `k`, and was not forgotten before. */
  predicate Fresh(es: seq<Event>, ip: Ip, j: nat, k: nat) {
    k < |es| && Survives(es, ip, j, k) && es[k].now - es[j].now < WINDOW
  }

  function FreshAt(es: seq<Event>, ip: Ip, k: nat): nat -> bool {
    (j: nat) => Fresh(es, ip, j, k)
  }

  lemma RetainedFresh(limit: nat, ms: seq<Table>, es: seq<Event>, ip: Ip, k: nat)
    requires Run(limit, ms, es) && k < |es|
    ensures TimesOf(Retained(ms[k], es[k].now), ip) == Picked(es, FreshAt(es, ip, k), k)
  {
    RunIsView(limit, ms, es, ip);
    ListIsSurvivors(limit, Project(ms, ip), es, ip, k);
    RetainedTimes(ms[k], es[k].now, ip);
    RecentPicked(es, Surviving(es, ip, k), FreshAt(es, ip, k), k, es[k].now);
  }

  lemma {:induction false} LastPicked(es: seq<Event>, p: nat -> bool, m: nat) returns (j: nat)
    requires m <= |es| && Ordered(es) && Picked(es, p, m) != []
    ensures j < m && p(j) && Picked(es, p, m)[|Picked(es, p, m)| - 1] == es[j].now
    ensures forall i: nat :: i < m && p(i) ==> es[i].now <= es[j].now
  {
    var n := m - 1;
    if p(n) {
      j := n;
    } else {
      j := LastPicked(es, p, n);
    }
  }

  lemma TrackedExactly(limit: nat, ms: seq<Table>, es: seq<Event>, ip: Ip, k: nat)
    requires Run(limit, ms, es) && k < |es|
    ensures ip in Retained(ms[k], es[k].now) <==> exists j: nat :: Fresh(es, ip, j, k)
  {
    RetainedFresh(limit, ms, es, ip, k);
    PickedCount(es, FreshAt(es, ip, k), k);
    var js := Below(FreshAt(es, ip, k), k);
    if js != {} {
      var j :| j in js;
      assert Fresh(es, ip, j, k);
    }
    if j: nat :| Fresh(es, ip, j, k) {
      assert j in js;
    }
  }

  /** The last accepted request of a tracked address. */
  lemma LastFresh(limit: nat, ms: seq<Table>, es: seq<Event>, ip: Ip, k: nat) returns (j: nat)
    requires Run(limit, ms, es) && Ordered(es) && k < |es| && ip in Retained(ms[k], es[k].now)
    ensures Fresh(es, ip, j, k) && LastUse(Retained(ms[k], es[k].now)[ip], es[k].now) == es[j].now
    ensures forall i: nat :: Fresh(es, ip, i, k) ==> es[i].now <= es[j].now
  {
    RetainedFresh(limit, ms, es, ip, k);
    j := LastPicked(es, FreshAt(es, ip, k), k);
  }

  lemma EvictedIsOldest(limit: nat, ms: seq<Table>, es: seq<Event>, k: nat, v: Ip, i: nat, ip: Ip) returns (j: nat)
    requires Run(limit, ms, es) && Ordered(es) && k < |es| && es[k].evicted == Some(v)
    requires v in Retained(ms[k], es[k].now) && ip in Retained(ms[k], es[k].now) && Fresh(es, v, i, k)
    ensures Fresh(es, ip, j, k) && es[i].now <= es[j].now
  {
    assert Next(limit, ms[k], es[k], ms[k + 1]);
    var last := LastFresh(limit, ms, es, v, k);
    j := LastFresh(limit, ms, es, ip, k);
  }

  /** An event evicts an address exactly when more addresses than the bound have a fresh request,
      and then one whose last request is no younger than the last one of any other. */
  lemma EvictsExactly(limit: nat, ms: seq<Table>, es: seq<Event>, k: nat) returns (tracked: set<Ip>)
    requires Run(limit, ms, es) && Ordered(es) && k < |es|
    ensures forall ip :: ip in tracked <==> exists j: nat :: Fresh(es, ip, j, k)
    ensures es[k].evicted.Some? <==> |tracked| > MAX_TRACKED_IPS
    ensures es[k].evicted.Some? ==> es[k].evicted.value in tracked
    ensures forall ip, i: nat :: es[k].evicted.Some? && ip in tracked && Fresh(es, es[k].evicted.value, i, k) ==>
              exists j: nat :: Fresh(es, ip, j, k) && es[i].now <= es[j].now
  {
    tracked := Retained(ms[k], es[k].now).Keys;
    assert |Retained(ms[k], es[k].now)| == |tracked|;
    assert Next(limit, ms[k], es[k], ms[k + 1]);
    forall ip ensures ip in tracked <==> exists j: nat :: Fresh(es, ip, j, k) {
      TrackedExactly(limit, ms, es, ip, k);
    }
    forall ip, i: nat | es[k].evicted.Some? && ip in tracked && Fresh(es, es[k].evicted.value, i, k)
      ensures exists j: nat :: Fresh(es, ip, j, k) && es[i].now <= es[j].now
    {
      var j := EvictedIsOldest(limit, ms, es, k, es[k].evicted.value, i, ip);
    }
  }

  lemma RetainedSmaller(m: Table, now: Instant)
    ensures |Retained(m, now)| <= |m|
  {
    Smaller(Retained(m, now).Keys, m.Keys);
    assert |Retained(m, now)| == |Retained(m, now).Keys| && |m| == |m.Keys|;
  }

  lemma WithoutSize(m: Table, evicted: Option<Ip>, now: Instant)
    requires EvictionOk(m, now, evicted)
    ensures |Without(m, evicted)| == if |m| <= MAX_TRACKED_IPS then |m| else |m| - 1
  {
  }

  lemma AddSize(m: Table, ip: Ip, times: seq<Instant>)
    ensures |m[ip := times]| <= |m| + 1
  {
  }

  /** The table never holds more than one address over its bound. */
  lemma {:induction false} TableBounded(limit: nat, ms: seq<Table>, es: seq<Event>, k: nat)
    requires Run(limit, ms, es) && k <= |es|
    ensures |ms[k]| <= MAX_TRACKED_IPS + 1
  {
    if k > 0 {
      var m, e := ms[k - 1], es[k - 1];
      TableBounded(limit, ms, es, k - 1);
      assert Next(limit, m, e, ms[k]);
      RetainedSmaller(m, e.now);
      var kept := Without(Retained(m, e.now), e.evicted);
      WithoutSize(Retained(m, e.now), e.evicted, e.now);
      if e.kind.Request? {
        var times := TimesOf(kept, e.kind.ip);
        AddSize(kept, e.kind.ip, if e.kind.accepted then times + [e.now] else times);
      }
    }
  }
}
