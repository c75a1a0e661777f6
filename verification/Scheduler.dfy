/** The job list, and the runs of the daemon that starts jobs when they are due.

    Instants are nanoseconds. Parsing an expression as an interval or a cron
    rule is given by `Env`. */
module Scheduler {
  import opened Text
  import opened Sorting

  const NANOS := 1_000_000_000
  const POLL_NANOS := 60 * NANOS
  const TWO63 := 0x8000_0000_0000_0000
  const TWO64 := 0x1_0000_0000_0000_0000

  datatype Job = Job(name: string, expression: string, prompt: string, lastRun: Option<int>, expiresAt: Option<int>)

  /** `interval` gives whole seconds; `cron` says whether a rule parses and
      `next` its first occurrence after an instant. */
  datatype Env = Env(interval: string -> Option<int>, cron: string -> bool, next: (string, int) -> Option<int>)

  /** An interval is a positive `u64`. */
  ghost predicate ValidEnv(env: Env) {
    forall e: string :: env.interval(e).Some? ==> 0 < env.interval(e).value < TWO64
  }

  // ---------------------------------------------------------------- due and expired

  /** `as i64` on a `u64`. */
  function AsI64(n: int): int {
    if n < TWO63 then n else n - TWO64
  }

  /** `Duration::num_seconds`, which truncates towards zero. */
  function NumSeconds(d: int): int {
    if d >= 0 then d / NANOS else -(-d / NANOS)
  }

  predicate IsExpired(job: Job, now: int) {
    job.expiresAt.Some? && now >= job.expiresAt.value
  }

  /** The clock is read once for expiry and again for the schedule. */
  datatype Reading = Reading(expiryAt: int, dueAt: int)

  predicate IsDue(env: Env, job: Job, r: Reading) {
    if IsExpired(job, r.expiryAt) then false
    else if env.interval(job.expression).Some? then
      job.lastRun.None? || NumSeconds(r.dueAt - job.lastRun.value) >= AsI64(env.interval(job.expression).value)
    else if !env.cron(job.expression) then false
    else
      job.lastRun.None?
      || (var next := env.next(job.expression, job.lastRun.value); next.Some? && r.dueAt >= next.value)
  }

  // ---------------------------------------------------------------- the job list

  predicate UniqueNames(jobs: seq<Job>) {
    forall i, j :: 0 <= i < j < |jobs| ==> jobs[i].name != jobs[j].name
  }

  function NotNamed(name: string): Job -> bool {
    (j: Job) => j.name != name
  }

  function NotExpired(now: int): Job -> bool {
    (j: Job) => !IsExpired(j, now)
  }

  function Position(jobs: seq<Job>, name: string): (r: Option<nat>)
    ensures r.Some? ==> r.value < |jobs| && jobs[r.value].name == name
    ensures r.Some? ==> forall k :: 0 <= k < r.value ==> jobs[k].name != name
    ensures r.None? ==> forall k :: 0 <= k < |jobs| ==> jobs[k].name != name
  {
    if jobs == [] then None
    else if jobs[0].name == name then Some(0)
    else
      match Position(jobs[1..], name)
      case None => None
      case Some(k) => Some(k + 1)
  }

  function Added(jobs: seq<Job>, name: string, expression: string, prompt: string): seq<Job> {
    Filter(jobs, NotNamed(name)) + [Job(name, expression, prompt, None, None)]
  }

  /** `jobs` with the job called `name` changed by `f`; the same list if there is none. */
  function Updated(jobs: seq<Job>, name: string, f: Job -> Job): seq<Job> {
    match Position(jobs, name)
    case None => jobs
    case Some(i) => jobs[i := f(jobs[i])]
  }

  function SetLastRun(now: int): Job -> Job {
    (j: Job) => j.(lastRun := Some(now))
  }

  function SetExpiresAt(e: Option<int>): Job -> Job {
    (j: Job) => j.(expiresAt := e)
  }

  predicate Accepts(env: Env, expression: string, yolo: bool) {
    yolo && (env.interval(expression).Some? || env.cron(expression))
  }

  predicate Has(jobs: seq<Job>, name: string) {
    Position(jobs, name).Some?
  }

  class Schedule {
    var jobs: seq<Job>

    method AddJob(env: Env, name: string, expression: string, prompt: string, yolo: bool) returns (ok: bool)
      modifies this
      ensures ok <==> yolo && (env.interval(expression).Some? || env.cron(expression))
      ensures jobs == if ok then Added(old(jobs), name, expression, prompt) else old(jobs)
      ensures UniqueNames(old(jobs)) ==> UniqueNames(jobs)
    {
      if !yolo {
        return false;
      }
      if env.interval(expression).None? && !env.cron(expression) {
        return false;
      }
      AddedUnique(jobs, name, expression, prompt);
      jobs := Filter(jobs, NotNamed(name));
      jobs := jobs + [Job(name, expression, prompt, None, None)];
      ok := true;
    }

    method DeleteJob(name: string) returns (ok: bool)
      modifies this
      ensures ok == Has(old(jobs), name)
      ensures jobs == Filter(old(jobs), NotNamed(name))
      ensures UniqueNames(old(jobs)) ==> UniqueNames(jobs)
    {
      var before := |jobs|;
      FilterUnique(jobs, NotNamed(name));
      FilterDrops(jobs, NotNamed(name));
      jobs := Filter(jobs, NotNamed(name));
      ok := |jobs| != before;
    }

    /** The locked prefix of a run; the returned job is then executed. */
    method RunJob(name: string, now: int) returns (job: Option<Job>)
      modifies this
      ensures job.Some? == Has(old(jobs), name)
      ensures jobs == Updated(old(jobs), name, SetLastRun(now))
      ensures job.Some? ==> job.value in jobs && job.value.name == name && job.value.lastRun == Some(now)
      ensures UniqueNames(old(jobs)) ==> UniqueNames(jobs)
    {
      var idx := Position(jobs, name);
      if idx.None? {
        return None;
      }
      UpdatedUnique(jobs, name, SetLastRun(now));
      jobs := jobs[idx.value := jobs[idx.value].(lastRun := Some(now))];
      job := Some(jobs[idx.value]);
    }

    method SetExpiry(name: string, expiresAt: Option<int>) returns (ok: bool)
      modifies this
      ensures ok == Has(old(jobs), name)
      ensures jobs == Updated(old(jobs), name, SetExpiresAt(expiresAt))
      ensures UniqueNames(old(jobs)) ==> UniqueNames(jobs)
    {
      var idx := Position(jobs, name);
      if idx.None? {
        return false;
      }
      UpdatedUnique(jobs, name, SetExpiresAt(expiresAt));
      jobs := jobs[idx.value := jobs[idx.value].(expiresAt := expiresAt)];
      ok := true;
    }

    method CleanupExpired(now: int) returns (removed: nat)
      modifies this
      ensures jobs == Filter(old(jobs), NotExpired(now))
      ensures removed == |old(jobs)| - |jobs|
      ensures UniqueNames(old(jobs)) ==> UniqueNames(jobs)
    {
      var before := |jobs|;
      FilterUnique(jobs, NotExpired(now));
      jobs := Filter(jobs, NotExpired(now));
      removed := before - |jobs|;
    }

    /** The daemon's look at the list: the due jobs and the number of expired ones. */
    method Poll(env: Env, now: int, readings: seq<Reading>) returns (due: seq<Entry>, expired: nat)
      requires |readings| == |jobs|
      ensures due == DueEntries(env, jobs, readings, |jobs|)
      ensures expired == |jobs| - |Filter(jobs, NotExpired(now))|
    {
      due := [];
      for i := 0 to |jobs|
        invariant due == DueEntries(env, jobs, readings, i)
      {
        if IsDue(env, jobs[i], readings[i]) {
          due := due + [Entry(jobs[i], readings[i])];
        }
      }
      expired := |jobs| - |Filter(jobs, NotExpired(now))|;
    }
  }

  lemma {:induction false} FilterUnique(jobs: seq<Job>, p: Job -> bool)
    ensures UniqueNames(jobs) ==> UniqueNames(Filter(jobs, p))
  {
    if jobs != [] && UniqueNames(jobs) {
      var front, last := jobs[..|jobs| - 1], jobs[|jobs| - 1];
      FilterUnique(front, p);
      FilterElements(front, p);
      var kept := Filter(front, p);
      forall k | 0 <= k < |kept| ensures kept[k].name != last.name {
        assert kept[k] in kept;
      }
    }
  }

  lemma AddedUnique(jobs: seq<Job>, name: string, expression: string, prompt: string)
    ensures UniqueNames(jobs) ==> UniqueNames(Added(jobs, name, expression, prompt))
  {
    FilterUnique(jobs, NotNamed(name));
    FilterElements(jobs, NotNamed(name));
    var rest := Filter(jobs, NotNamed(name));
    assert forall k :: 0 <= k < |rest| ==> rest[k] in rest;
  }

  /** Adding a job replaces the one of that name, if there is one; the new one has never run and
      does not expire. */
  lemma AddedExactly(jobs: seq<Job>, name: string, expression: string, prompt: string, job: Job)
    ensures job in Added(jobs, name, expression, prompt)
            <==> job == Job(name, expression, prompt, None, None) || (job in jobs && job.name != name)
    ensures job in Filter(jobs, NotNamed(name)) <==> job in jobs && job.name != name
  {
    FilterElements(jobs, NotNamed(name));
  }

  /** A start and a new expiry change that one field of the job of that name alone. */
  lemma UpdatedExactly(jobs: seq<Job>, name: string, now: int, expiresAt: Option<int>, k: nat)
    requires k < |jobs| && UniqueNames(jobs)
    ensures |Updated(jobs, name, SetLastRun(now))| == |Updated(jobs, name, SetExpiresAt(expiresAt))| == |jobs|
    ensures Updated(jobs, name, SetLastRun(now))[k] == if jobs[k].name == name then jobs[k].(lastRun := Some(now)) else jobs[k]
    ensures Updated(jobs, name, SetExpiresAt(expiresAt))[k]
            == if jobs[k].name == name then jobs[k].(expiresAt := expiresAt) else jobs[k]
  {
  }

  predicate All(jobs: seq<Job>, p: Job -> bool) {
    forall k :: 0 <= k < |jobs| ==> p(jobs[k])
  }

  lemma AllSnoc(jobs: seq<Job>, job: Job, p: Job -> bool)
    ensures All(jobs + [job], p) <==> All(jobs, p) && p(job)
  {
    var all := jobs + [job];
    assert all[|jobs|] == job && forall k :: 0 <= k < |jobs| ==> all[k] == jobs[k];
  }

  lemma {:induction false} FilterDrops(jobs: seq<Job>, p: Job -> bool)
    ensures |Filter(jobs, p)| == |jobs| <==> All(jobs, p)
    ensures |Filter(jobs, p)| == |jobs| ==> Filter(jobs, p) == jobs
  {
    if jobs != [] {
      var front, last := jobs[..|jobs| - 1], jobs[|jobs| - 1];
      FilterDrops(front, p);
      AllSnoc(front, last, p);
      assert jobs == front + [last];
    }
  }

  ghost predicate KeepsName(f: Job -> Job) {
    forall j: Job :: f(j).name == j.name
  }

  lemma UpdatedUnique(jobs: seq<Job>, name: string, f: Job -> Job)
    requires KeepsName(f)
    ensures UniqueNames(jobs) ==> UniqueNames(Updated(jobs, name, f))
  {
  }

  // ---------------------------------------------------------------- polls

  datatype Entry = Entry(job: Job, reading: Reading)

  function DueEntries(env: Env, jobs: seq<Job>, readings: seq<Reading>, m: nat): seq<Entry>
    requires m <= |jobs| == |readings|
  {
    if m == 0 then [] else
      DueEntries(env, jobs, readings, m - 1)
      + (if IsDue(env, jobs[m - 1], readings[m - 1]) then [Entry(jobs[m - 1], readings[m - 1])] else [])
  }

  predicate UniqueEntries(s: seq<Entry>) {
    forall i, j :: 0 <= i < j < |s| ==> s[i].job.name != s[j].job.name
  }

  lemma {:induction false} DueEntriesFrom(env: Env, jobs: seq<Job>, readings: seq<Reading>, m: nat)
    requires m <= |jobs| == |readings|
    ensures forall e :: e in DueEntries(env, jobs, readings, m) <==>
              exists k :: 0 <= k < m && e == Entry(jobs[k], readings[k]) && IsDue(env, jobs[k], readings[k])
  {
    if m > 0 {
      DueEntriesFrom(env, jobs, readings, m - 1);
    }
  }

  lemma {:induction false} DueEntriesUnique(env: Env, jobs: seq<Job>, readings: seq<Reading>, m: nat)
    requires m <= |jobs| == |readings| && UniqueNames(jobs)
    ensures UniqueEntries(DueEntries(env, jobs, readings, m))
  {
    if m > 0 {
      DueEntriesUnique(env, jobs, readings, m - 1);
      var d := DueEntries(env, jobs, readings, m - 1);
      DueEntriesFrom(env, jobs, readings, m - 1);
      forall k | 0 <= k < |d| ensures d[k].job.name != jobs[m - 1].name {
        assert d[k] in d;
      }
    }
  }

  predicate Lists(s: seq<Entry>, name: string) {
    exists k :: 0 <= k < |s| && s[k].job.name == name
  }

  lemma ListedExactly(env: Env, jobs: seq<Job>, readings: seq<Reading>, i: nat)
    requires i < |jobs| == |readings| && UniqueNames(jobs)
    ensures Lists(DueEntries(env, jobs, readings, |jobs|), jobs[i].name) <==> IsDue(env, jobs[i], readings[i])
  {
    var d := DueEntries(env, jobs, readings, |jobs|);
    DueEntriesFrom(env, jobs, readings, |jobs|);
    if IsDue(env, jobs[i], readings[i]) {
      assert Entry(jobs[i], readings[i]) in d;
      var k :| 0 <= k < |d| && d[k] == Entry(jobs[i], readings[i]);
      assert d[k].job.name == jobs[i].name;
    }
    if Lists(d, jobs[i].name) {
      var k :| 0 <= k < |d| && d[k].job.name == jobs[i].name;
      assert d[k] in d;
      var l :| 0 <= l < |jobs| && d[k] == Entry(jobs[l], readings[l]) && IsDue(env, jobs[l], readings[l]);
      assert l == i;
    }
  }

  /** `elapsed` is enough for an interval of `secs`: from 2^63 on the cast wraps, and so does the
      comparison, which truncates towards zero. */
  predicate Elapsed(elapsed: int, secs: int) {
    if secs < TWO63 then elapsed >= secs * NANOS else elapsed > (secs - TWO64 - 1) * NANOS
  }

  lemma ElapsedExactly(elapsed: int, secs: int)
    requires 0 < secs < TWO64
    ensures NumSeconds(elapsed) >= AsI64(secs) <==> Elapsed(elapsed, secs)
  {
  }

  /** A poll lists a job exactly when it is not past its expiry and it has never run or its time
      has come: by its interval if it has one, and else by its cron rule. */
  lemma PollExactly(env: Env, jobs: seq<Job>, readings: seq<Reading>, i: nat)
    requires ValidEnv(env) && i < |jobs| == |readings| && UniqueNames(jobs)
    ensures var job, r := jobs[i], readings[i];
            Lists(DueEntries(env, jobs, readings, |jobs|), job.name) <==>
            && (job.expiresAt.Some? ==> r.expiryAt < job.expiresAt.value)
            && match env.interval(job.expression)
               case Some(secs) => job.lastRun.Some? ==> Elapsed(r.dueAt - job.lastRun.value, secs)
               case None =>
                 && env.cron(job.expression)
                 && (job.lastRun.Some? ==>
                     exists t :: env.next(job.expression, job.lastRun.value) == Some(t) && t <= r.dueAt)
  {
    ListedExactly(env, jobs, readings, i);
    var job, secs := jobs[i], env.interval(jobs[i].expression);
    if secs.Some? && job.lastRun.Some? {
      ElapsedExactly(readings[i].dueAt - job.lastRun.value, secs.value);
    }
  }

  /** A cleanup keeps exactly the jobs that are not past their expiry. */
  lemma CleanupExactly(jobs: seq<Job>, now: int, job: Job)
    ensures job in Filter(jobs, NotExpired(now))
            <==> job in jobs && (job.expiresAt.Some? ==> now < job.expiresAt.value)
  {
    FilterElements(jobs, NotExpired(now));
  }

  // ---------------------------------------------------------------- runs

  /** One atomic step: a locked change of the list, a step of the daemon, or
      the passing of time. */
  datatype Action =
    | Tick(elapsed: nat)
    | Add(name: string, expression: string, prompt: string, yolo: bool)
    | Delete(name: string)
    | SetExpiry(name: string, expiresAt: Option<int>)
    | ManualRun(name: string)
    | Cleanup
    | Poll(now: int, readings: seq<Reading>, done: int)
    | DaemonCleanup
    | DaemonStart(index: nat)
    | DaemonWait
    | DaemonKill

  /** The daemon sleeps, or works through the due jobs of its last poll. */
  datatype Daemon =
    | Sleeping
    | Cleaning(poll: PollRecord, pending: seq<Entry>)
    | Starting(poll: PollRecord, pending: seq<Entry>)

  /** What a poll saw. */
  datatype PollRecord = PollRecord(jobs: seq<Job>, readings: seq<Reading>)

  /** What happened, in order. A start by the daemon names the poll it came from. */
  datatype Event =
    | ReAdded(name: string)
    | Started(name: string, expression: string, at: int, poll: Option<PollRecord>)

  datatype State = State(jobs: seq<Job>, clock: int, daemon: Daemon, log: seq<Event>)

  function Initial(clock: int): State {
    State([], clock, Sleeping, [])
  }

  predicate ReadingsBetween(readings: seq<Reading>, from: int, to: int) {
    forall k :: 0 <= k < |readings| ==> from <= readings[k].expiryAt <= readings[k].dueAt <= to
  }

  predicate Enabled(s: State, a: Action) {
    match a
    case Poll(now, readings, done) =>
      && s.daemon.Sleeping? && |readings| == |s.jobs|
      && s.clock <= now <= done && ReadingsBetween(readings, now, done)
    case DaemonCleanup => s.daemon.Cleaning?
    case DaemonStart(i) => s.daemon.Starting? && i < |s.daemon.pending|
    case DaemonWait => s.daemon.Starting? && s.daemon.pending == []
    case _ => true
  }

  /** The locked prefix of a run, by hand or from a poll. */
  function Start(s: State, name: string, poll: Option<PollRecord>): State {
    match Position(s.jobs, name)
    case None => s
    case Some(i) =>
      s.(jobs := Updated(s.jobs, name, SetLastRun(s.clock)),
         log := s.log + [Started(name, s.jobs[i].expression, s.clock, poll)])
  }

  function Without(s: seq<Entry>, i: nat): seq<Entry>
    requires i < |s|
  {
    s[..i] + s[i + 1..]
  }

  function Next(env: Env, s: State, a: Action): State
    requires Enabled(s, a)
  {
    match a
    case Tick(elapsed) => s.(clock := s.clock + elapsed)
    case Add(name, expression, prompt, yolo) =>
      if !Accepts(env, expression, yolo) then s
      else s.(jobs := Added(s.jobs, name, expression, prompt), log := s.log + [ReAdded(name)])
    case Delete(name) => s.(jobs := Filter(s.jobs, NotNamed(name)))
    case SetExpiry(name, expiresAt) => s.(jobs := Updated(s.jobs, name, SetExpiresAt(expiresAt)))
    case ManualRun(name) => Start(s, name, None)
    case Cleanup => s.(jobs := Filter(s.jobs, NotExpired(s.clock)))
    case Poll(now, readings, done) =>
      var due := DueEntries(env, s.jobs, readings, |s.jobs|);
      s.(clock := done,
         daemon := if |Filter(s.jobs, NotExpired(now))| < |s.jobs| 
                    then Cleaning(PollRecord(s.jobs, readings), due)
                    else Starting(PollRecord(s.jobs, readings), due))
    case DaemonCleanup => s.(jobs := Filter(s.jobs, NotExpired(s.clock)), daemon := Starting(s.daemon.poll, s.daemon.pending))
    case DaemonStart(i) =>
      var e := s.daemon.pending[i];
      Start(s.(daemon := Starting(s.daemon.poll, Without(s.daemon.pending, i))), e.job.name, Some(s.daemon.poll))
    case DaemonWait => s.(daemon := Sleeping)
    case DaemonKill => s.(daemon := Sleeping)
  }

  /** Runs `actions`; one that is not enabled has no effect. */
  function Run(env: Env, clock: int, actions: seq<Action>): State {
    if actions == [] then Initial(clock) else
      var s := Run(env, clock, actions[..|actions| - 1]);
      var a := actions[|actions| - 1];
      if Enabled(s, a) then Next(env, s, a) else s
  }

  // ---------------------------------------------------------------- spacing

  /** No job called `name` is added after event `i`. */
  predicate Quiet(log: seq<Event>, i: nat, name: string) {
    forall k :: i < k < |log| ==> log[k] != ReAdded(name)
  }

  predicate Apart(env: Env, expression: string, from: int, to: int) {
    var n := env.interval(expression);
    n.Some? && n.value < TWO63 ==> to - from >= n.value * NANOS
  }

  /** The list remembers every start that no re-adding has wiped out. */
  predicate Remembers(log: seq<Event>, job: Job) {
    forall i :: 0 <= i < |log| && log[i].Started? && log[i].name == job.name && Quiet(log, i, job.name) ==>
      job.expression == log[i].expression && job.lastRun.Some? && job.lastRun.value >= log[i].at
  }

  predicate AllRemember(s: State) {
    forall k :: 0 <= k < |s.jobs| ==> Remembers(s.log, s.jobs[k])
  }

  /** Event `i` is a daemon start of `name`, not followed by a re-adding. */
  predicate DaemonStarted(log: seq<Event>, i: nat, name: string) {
    i < |log| && log[i].Started? && log[i].poll.Some? && log[i].name == name && Quiet(log, i, name)
  }

  /** A pending start is far enough from the job's earlier daemon starts. */
  predicate Ready(env: Env, log: seq<Event>, clock: int, e: Entry) {
    && e.reading.dueAt <= clock
    && IsDue(env, e.job, e.reading)
    && forall i :: 0 <= i < |log| && DaemonStarted(log, i, e.job.name) ==>
         Apart(env, log[i].expression, log[i].at, e.reading.dueAt)
  }

  function Pending(d: Daemon): seq<Entry> {
    if d.Sleeping? then [] else d.pending
  }

  predicate AllReady(env: Env, s: State) {
    && UniqueEntries(Pending(s.daemon))
    && forall k :: 0 <= k < |Pending(s.daemon)| ==> Ready(env, s.log, s.clock, Pending(s.daemon)[k])
  }

  /** Two starts of a job by the daemon, with no re-adding in between. */
  predicate DaemonPair(log: seq<Event>, i: nat, j: nat) {
    && i < j < |log| && DaemonStarted(log[..j], i, log[i].name)
    && log[j].Started? && log[j].poll.Some? && log[j].name == log[i].name
  }

  ghost predicate Spaced(env: Env, log: seq<Event>) {
    forall i, j :: 0 <= i < j < |log| && DaemonPair(log, i, j) ==>
      Apart(env, log[i].expression, log[i].at, log[j].at)
  }

  predicate Past(s: State) {
    forall i :: 0 <= i < |s.log| && s.log[i].Started? ==> s.log[i].at <= s.clock
  }

  /** `poll` saw a job called `name`, and every job of that name it saw was unexpired and due. */
  predicate SeenDue(env: Env, poll: PollRecord, name: string) {
    && |poll.jobs| == |poll.readings|
    && Has(poll.jobs, name)
    && forall k :: 0 <= k < |poll.jobs| && poll.jobs[k].name == name ==>
         !IsExpired(poll.jobs[k], poll.readings[k].expiryAt) && IsDue(env, poll.jobs[k], poll.readings[k])
  }

  predicate PendingSeen(env: Env, d: Daemon) {
    forall k :: 0 <= k < |Pending(d)| ==> SeenDue(env, d.poll, d.pending[k].job.name)
  }

  predicate StartsSeen(env: Env, log: seq<Event>) {
    forall j :: 0 <= j < |log| && log[j].Started? && log[j].poll.Some? ==> SeenDue(env, log[j].poll.value, log[j].name)
  }

  ghost predicate Inv(env: Env, s: State) {
    && UniqueNames(s.jobs) && AllRemember(s) && Past(s)
    && AllReady(env, s) && Spaced(env, s.log)
    && PendingSeen(env, s.daemon) && StartsSeen(env, s.log)
  }

  /** Steps that leave the log and only drop jobs or change fields other than
      the name, the expression and the last run. */
  lemma DropKeepsInv(env: Env, s: State, p: Job -> bool)
    requires Inv(env, s)
    ensures Inv(env, s.(jobs := Filter(s.jobs, p)))
  {
    FilterUnique(s.jobs, p);
    FilterElements(s.jobs, p);
    var kept := Filter(s.jobs, p);
    forall k | 0 <= k < |kept| ensures Remembers(s.log, kept[k]) {
      assert kept[k] in kept;
    }
  }

  lemma ExpiryKeepsInv(env: Env, s: State, name: string, e: Option<int>)
    requires Inv(env, s)
    ensures Inv(env, s.(jobs := Updated(s.jobs, name, SetExpiresAt(e))))
  {
  }

  lemma QuietShorter(log: seq<Event>, e: Event, i: nat, name: string)
    requires i < |log|
    ensures Quiet(log + [e], i, name) <==> Quiet(log, i, name) && e != ReAdded(name)
  {
    assert (log + [e])[|log|] == e;
    if Quiet(log + [e], i, name) {
      forall k | i < k < |log| ensures log[k] != ReAdded(name) {
        assert (log + [e])[k] == log[k];
      }
    }
  }

  lemma SpacedMore(env: Env, log: seq<Event>, e: Event)
    requires Spaced(env, log)
    requires forall i :: 0 <= i < |log| && e.Started? && e.poll.Some? && DaemonStarted(log, i, e.name) ==>
               Apart(env, log[i].expression, log[i].at, e.at)
    ensures Spaced(env, log + [e])
  {
    var l := log + [e];
    forall i, j | 0 <= i < j < |l| && DaemonPair(l, i, j) ensures Apart(env, l[i].expression, l[i].at, l[j].at) {
      assert l[..j] == log[..j];
      if j < |log| {
        assert DaemonPair(log, i, j);
      } else {
        assert log[..j] == log;
      }
    }
  }

  lemma ReadyMore(env: Env, log: seq<Event>, clock: int, e: Event, p: Entry)
    requires Ready(env, log, clock, p)
    requires e.Started? && e.poll.Some? ==> e.name != p.job.name
    ensures Ready(env, log + [e], clock, p)
  {
    forall i | 0 <= i < |log + [e]| && DaemonStarted(log + [e], i, p.job.name)
      ensures Apart(env, (log + [e])[i].expression, (log + [e])[i].at, p.reading.dueAt)
    {
      assert i < |log|;
      QuietShorter(log, e, i, p.job.name);
      assert DaemonStarted(log, i, p.job.name);
    }
  }

  lemma RemembersMore(log: seq<Event>, e: Event, job: Job)
    requires Remembers(log, job) && e.name != job.name
    ensures Remembers(log + [e], job)
  {
    forall i | 0 <= i < |log| ensures Quiet(log + [e], i, job.name) <==> Quiet(log, i, job.name) {
      QuietShorter(log, e, i, job.name);
    }
  }

  lemma AddKeepsInv(env: Env, s: State, name: string, expression: string, prompt: string)
    requires Inv(env, s)
    ensures Inv(env, s.(jobs := Added(s.jobs, name, expression, prompt), log := s.log + [ReAdded(name)]))
  {
    var e := ReAdded(name);
    FilterElements(s.jobs, NotNamed(name));
    var kept := Filter(s.jobs, NotNamed(name));
    AddedUnique(s.jobs, name, expression, prompt);
    SpacedMore(env, s.log, e);
    forall k | 0 <= k < |kept| ensures Remembers(s.log + [e], kept[k]) {
      assert kept[k] in kept;
      RemembersMore(s.log, e, kept[k]);
    }
    AddedForgotten(s.log, Job(name, expression, prompt, None, None));
    forall k | 0 <= k < |Pending(s.daemon)| ensures Ready(env, s.log + [e], s.clock, Pending(s.daemon)[k]) {
      ReadyMore(env, s.log, s.clock, e, Pending(s.daemon)[k]);
    }
  }

  lemma AddedForgotten(log: seq<Event>, job: Job)
    ensures Remembers(log + [ReAdded(job.name)], job)
  {
    forall i | 0 <= i < |log| ensures !Quiet(log + [ReAdded(job.name)], i, job.name) {
      QuietShorter(log, ReAdded(job.name), i, job.name);
    }
  }

  /** The started job's record is up to date. */
  lemma StartRemembered(log: seq<Event>, job: Job, now: int, poll: Option<PollRecord>)
    requires Remembers(log, job)
    requires forall i :: 0 <= i < |log| && log[i].Started? ==> log[i].at <= now
    ensures Remembers(log + [Started(job.name, job.expression, now, poll)], job.(lastRun := Some(now)))
  {
    forall i | 0 <= i < |log| ensures
      Quiet(log + [Started(job.name, job.expression, now, poll)], i, job.name) <==> Quiet(log, i, job.name)
    {
      QuietShorter(log, Started(job.name, job.expression, now, poll), i, job.name);
    }
  }

  lemma StartRemembers(s: State, name: string, poll: Option<PollRecord>)
    requires UniqueNames(s.jobs) && AllRemember(s) && Past(s)
    ensures UniqueNames(Start(s, name, poll).jobs) && AllRemember(Start(s, name, poll))
  {
    var at := Position(s.jobs, name);
    if at.Some? {
      var e := Started(name, s.jobs[at.value].expression, s.clock, poll);
      var jobs := Updated(s.jobs, name, SetLastRun(s.clock));
      UpdatedUnique(s.jobs, name, SetLastRun(s.clock));
      forall k | 0 <= k < |jobs| ensures Remembers(s.log + [e], jobs[k]) {
        if k == at.value {
          StartRemembered(s.log, s.jobs[k], s.clock, poll);
        } else {
          RemembersMore(s.log, e, s.jobs[k]);
        }
      }
    }
  }

  lemma ManualKeepsInv(env: Env, s: State, name: string)
    requires Inv(env, s)
    ensures Inv(env, Start(s, name, None))
  {
    StartRemembers(s, name, None);
    var at := Position(s.jobs, name);
    if at.Some? {
      var e := Started(name, s.jobs[at.value].expression, s.clock, None);
      SpacedMore(env, s.log, e);
      forall k | 0 <= k < |Pending(s.daemon)| ensures Ready(env, s.log + [e], s.clock, Pending(s.daemon)[k]) {
        ReadyMore(env, s.log, s.clock, e, Pending(s.daemon)[k]);
      }
    }
  }

  lemma RestReady(env: Env, log: seq<Event>, clock: int, pending: seq<Entry>, i: nat, e: Event)
    requires i < |pending| && UniqueEntries(pending)
    requires forall k :: 0 <= k < |pending| ==> Ready(env, log, clock, pending[k])
    requires e.Started? && e.name == pending[i].job.name
    ensures var rest := Without(pending, i);
            && UniqueEntries(rest)
            && (forall k :: 0 <= k < |rest| ==> rest[k] in pending)
            && (forall k :: 0 <= k < |rest| ==> Ready(env, log, clock, rest[k]) && Ready(env, log + [e], clock, rest[k]))
  {
    var rest := Without(pending, i);
    assert forall k :: 0 <= k < |rest| ==> rest[k] == pending[if k < i then k else k + 1];
    forall k | 0 <= k < |rest| ensures Ready(env, log, clock, rest[k]) && Ready(env, log + [e], clock, rest[k]) {
      ReadyMore(env, log, clock, e, rest[k]);
    }
  }

  lemma DaemonStartKeepsInv(env: Env, s: State, i: nat)
    requires Inv(env, s) && Enabled(s, DaemonStart(i))
    ensures Inv(env, Next(env, s, DaemonStart(i)))
  {
    var p := s.daemon.pending[i];
    var name := p.job.name;
    var s1 := s.(daemon := Starting(s.daemon.poll, Without(s.daemon.pending, i)));
    assert Ready(env, s.log, s.clock, p) && SeenDue(env, s.daemon.poll, name);
    StartRemembers(s1, name, Some(s.daemon.poll));
    var at := Position(s.jobs, name);
    RestReady(env, s.log, s.clock, s.daemon.pending, i, Started(name, "", s.clock, None));
    if at.Some? {
      var e := Started(name, s.jobs[at.value].expression, s.clock, Some(s.daemon.poll));
      SpacedMore(env, s.log, e);
      RestReady(env, s.log, s.clock, s.daemon.pending, i, e);
    }
  }

  lemma PollReady(env: Env, s: State, job: Job, r: Reading, done: int)
    requires ValidEnv(env) && Remembers(s.log, job) && IsDue(env, job, r) && r.dueAt <= done
    ensures Ready(env, s.log, done, Entry(job, r))
  {
  }

  lemma PollKeepsInv(env: Env, s: State, now: int, readings: seq<Reading>, done: int)
    requires ValidEnv(env) && Inv(env, s) && Enabled(s, Poll(now, readings, done))
    ensures Inv(env, Next(env, s, Poll(now, readings, done)))
  {
    var due := DueEntries(env, s.jobs, readings, |s.jobs|);
    DueEntriesUnique(env, s.jobs, readings, |s.jobs|);
    DueEntriesFrom(env, s.jobs, readings, |s.jobs|);
    forall k | 0 <= k < |due|
      ensures Ready(env, s.log, done, due[k]) && SeenDue(env, PollRecord(s.jobs, readings), due[k].job.name)
    {
      assert due[k] in due;
      var l :| 0 <= l < |s.jobs| && due[k] == Entry(s.jobs[l], readings[l]) && IsDue(env, s.jobs[l], readings[l]);
      PollReady(env, s, s.jobs[l], readings[l], done);
    }
  }

  lemma TickKeepsInv(env: Env, s: State, elapsed: nat)
    requires Inv(env, s)
    ensures Inv(env, s.(clock := s.clock + elapsed))
  {
  }

  lemma NextKeepsInv(env: Env, s: State, a: Action)
    requires ValidEnv(env) && Inv(env, s) && Enabled(s, a)
    ensures Inv(env, Next(env, s, a))
  {
    match a
    case Tick(elapsed) => TickKeepsInv(env, s, elapsed);
    case Add(name, expression, prompt, yolo) => AddKeepsInv(env, s, name, expression, prompt);
    case Delete(name) => DropKeepsInv(env, s, NotNamed(name));
    case SetExpiry(name, e) => ExpiryKeepsInv(env, s, name, e);
    case ManualRun(name) => ManualKeepsInv(env, s, name);
    case Cleanup => DropKeepsInv(env, s, NotExpired(s.clock));
    case Poll(now, readings, done) => PollKeepsInv(env, s, now, readings, done);
    case DaemonCleanup =>
      DropKeepsInv(env, s, NotExpired(s.clock));
    case DaemonStart(i) => DaemonStartKeepsInv(env, s, i);
    case DaemonWait =>
    case DaemonKill =>
  }

  lemma {:induction false} RunInv(env: Env, clock: int, actions: seq<Action>)
    requires ValidEnv(env)
    ensures Inv(env, Run(env, clock, actions))
  {
    if actions != [] {
      RunInv(env, clock, actions[..|actions| - 1]);
      var s, a := Run(env, clock, actions[..|actions| - 1]), actions[|actions| - 1];
      if Enabled(s, a) {
        NextKeepsInv(env, s, a);
      }
    }
  }

  // ---------------------------------------------------------------- what runs guarantee

  /** In every run names stay unique, and whatever the daemon starts was seen
      unexpired and due by the poll it comes from. */
  lemma StartsWereDue(env: Env, clock: int, actions: seq<Action>, j: nat)
    requires ValidEnv(env)
    requires j < |Run(env, clock, actions).log|
    requires Run(env, clock, actions).log[j].Started? && Run(env, clock, actions).log[j].poll.Some?
    ensures UniqueNames(Run(env, clock, actions).jobs)
    ensures var e := Run(env, clock, actions).log[j]; SeenDue(env, e.poll.value, e.name)
  {
    RunInv(env, clock, actions);
  }

  /** Daemon starts of a job with this expression keep their interval in `log`. */
  predicate KeepsInterval(log: seq<Event>, expression: string, secs: int) {
    forall i, j :: 0 <= i < j < |log| && DaemonPair(log, i, j) && log[i].expression == expression ==>
      log[j].at - log[i].at >= secs * NANOS
  }

  ghost predicate AlwaysKeepsInterval(env: Env, expression: string, secs: int) {
    forall clock, actions :: KeepsInterval(Run(env, clock, actions).log, expression, secs)
  }

  /** One job, and two rounds of the daemon, which sleeps for the poll interval before each. */
  function Twice(expression: string): seq<Action> {
    var r0, r1 := Reading(POLL_NANOS, POLL_NANOS), Reading(2 * POLL_NANOS, 2 * POLL_NANOS);
    [Add("job", expression, "", true),
     Tick(POLL_NANOS), Poll(POLL_NANOS, [r0], POLL_NANOS), DaemonStart(0), DaemonWait,
     Tick(POLL_NANOS), Poll(2 * POLL_NANOS, [r1], 2 * POLL_NANOS), DaemonStart(0)]
  }

  lemma RunStep(env: Env, clock: int, actions: seq<Action>, k: nat)
    requires k < |actions|
    ensures var s := Run(env, clock, actions[..k]);
            Run(env, clock, actions[..k + 1]) == if Enabled(s, actions[k]) then Next(env, s, actions[k]) else s
  {
    assert actions[..k + 1][..k] == actions[..k];
  }

  /** What a poll does when the one job is due. */
  lemma PollOne(env: Env, job: Job, t: int, log: seq<Event>)
    requires IsDue(env, job, Reading(t, t)) && job.expiresAt.None?
    ensures var r := Reading(t, t);
            Next(env, State([job], t, Sleeping, log), Poll(t, [r], t))
            == State([job], t, Starting(PollRecord([job], [r]), [Entry(job, r)]), log)
  {
    var r := Reading(t, t);
    assert DueEntries(env, [job], [r], 0) == [];
    assert DueEntries(env, [job], [r], 1) == [Entry(job, r)];
    assert Filter([job], NotExpired(t)) == [job];
  }

  lemma StartOne(env: Env, job: Job, t: int, poll: PollRecord, r: Reading, log: seq<Event>)
    ensures Next(env, State([job], t, Starting(poll, [Entry(job, r)]), log), DaemonStart(0))
            == State([job.(lastRun := Some(t))], t, Starting(poll, []),
                     log + [Started(job.name, job.expression, t, Some(poll))])
  {
    assert Position([job], job.name) == Some(0);
    assert Without([Entry(job, r)], 0) == [];
  }

  lemma FirstRound(env: Env, expression: string, job: Job, r: Reading, poll: PollRecord)
    requires env.interval(expression).Some? && job == Job("job", expression, "", None, None)
    requires r == Reading(POLL_NANOS, POLL_NANOS) && poll == PollRecord([job], [r])
    ensures Run(env, 0, Twice(expression)[..5])
            == State([job.(lastRun := Some(POLL_NANOS))], POLL_NANOS, Sleeping,
                     [ReAdded("job"), Started("job", expression, POLL_NANOS, Some(poll))])
  {
    var acts := Twice(expression);
    assert acts[..0] == [];
    RunStep(env, 0, acts, 0);
    assert Run(env, 0, acts[..1]) == State([job], 0, Sleeping, [ReAdded("job")]);
    RunStep(env, 0, acts, 1);
    RunStep(env, 0, acts, 2);
    PollOne(env, job, POLL_NANOS, [ReAdded("job")]);
    RunStep(env, 0, acts, 3);
    StartOne(env, job, POLL_NANOS, poll, r, [ReAdded("job")]);
    RunStep(env, 0, acts, 4);
  }

  /** An interval of 2^63 seconds or more wraps to a negative number, and the
      job is started again at the next poll, a minute later. */
  lemma WrappedStartsAgain(env: Env, expression: string)
    requires ValidEnv(env) && env.interval(expression).Some? && env.interval(expression).value >= TWO63
    ensures var log := Run(env, 0, Twice(expression)).log;
            && |log| == 3 && DaemonPair(log, 1, 2)
            && log[1].expression == expression && log[2].at - log[1].at == POLL_NANOS
    ensures !KeepsInterval(Run(env, 0, Twice(expression)).log, expression, env.interval(expression).value)
  {
    var t0, t1 := POLL_NANOS, 2 * POLL_NANOS;
    var job := Job("job", expression, "", None, None);
    var ran := job.(lastRun := Some(t0));
    var r0, r1 := Reading(t0, t0), Reading(t1, t1);
    var acts := Twice(expression);
    var seen0, seen1 := PollRecord([job], [r0]), PollRecord([ran], [r1]);
    var e0, e1 := Started("job", expression, t0, Some(seen0)), Started("job", expression, t1, Some(seen1));
    FirstRound(env, expression, job, r0, seen0);
    RunStep(env, 0, acts, 5);
    RunStep(env, 0, acts, 6);
    PollOne(env, ran, t1, [ReAdded("job"), e0]);
    RunStep(env, 0, acts, 7);
    StartOne(env, ran, t1, seen1, r1, [ReAdded("job"), e0]);
    assert acts[..8] == acts;
    var log := [ReAdded("job"), e0, e1];
    assert Run(env, 0, acts).log == log;
    assert DaemonPair(log, 1, 2);
  }

  /** Two daemon starts of an interval job that was not re-added in between are
      at least the interval apart in every run exactly when the interval is
      below 2^63 seconds. */
  lemma SpacingExactly(env: Env, expression: string)
    requires ValidEnv(env) && env.interval(expression).Some?
    ensures AlwaysKeepsInterval(env, expression, env.interval(expression).value)
            <==> env.interval(expression).value < TWO63
  {
    var secs := env.interval(expression).value;
    if secs < TWO63 {
      forall clock, actions ensures KeepsInterval(Run(env, clock, actions).log, expression, secs) {
        RunInv(env, clock, actions);
      }
    } else {
      WrappedStartsAgain(env, expression);
    }
  }
}
