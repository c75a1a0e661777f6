/** What becomes of the jobs that a poll found due. */
module SchedulerStarts {
  import opened Text
  import opened Sorting
  import opened Scheduler

  /** Runs `actions` from `s`; one that is not enabled has no effect. */
  function RunFrom(env: Env, s: State, actions: seq<Action>): State {
    if actions == [] then s else
      var t := RunFrom(env, s, actions[..|actions| - 1]);
      var a := actions[|actions| - 1];
      if Enabled(t, a) then Next(env, t, a) else t
  }

  lemma {:induction false} RunConcat(env: Env, clock: int, first: seq<Action>, rest: seq<Action>)
    ensures Run(env, clock, first + rest) == RunFrom(env, Run(env, clock, first), rest)
  {
    if rest == [] {
      assert first + rest == first;
    } else {
      var n := |rest| - 1;
      RunConcat(env, clock, first, rest[..n]);
      assert (first + rest)[..|first + rest| - 1] == first + rest[..n];
    }
  }

  /** Behind the first `from` events, `log` has a start of `name` that comes from `poll`. */
  predicate StartedSince(log: seq<Event>, from: nat, name: string, poll: PollRecord) {
    exists e :: from <= e < |log| && log[e].Started? && log[e].name == name && log[e].poll == Some(poll)
  }

  /** The start is still to come. */
  predicate Awaited(d: Daemon, name: string, poll: PollRecord) {
    !d.Sleeping? && d.poll == poll && Lists(d.pending, name)
  }

  lemma WithoutLists(pending: seq<Entry>, i: nat, name: string)
    requires i < |pending| && Lists(pending, name) && pending[i].job.name != name
    ensures Lists(Without(pending, i), name)
  {
    var k :| 0 <= k < |pending| && pending[k].job.name == name;
    var at := if k < i then k else k - 1;
    assert Without(pending, i)[at] == pending[k];
  }

  lemma LogGrows(env: Env, s: State, a: Action)
    requires Enabled(s, a)
    ensures s.log <= Next(env, s, a).log
  {
  }

  lemma StepAwaits(env: Env, s: State, a: Action, from: nat, name: string, poll: PollRecord)
    requires Enabled(s, a) && !a.DaemonKill? && Has(s.jobs, name) && from <= |s.log|
    requires Awaited(s.daemon, name, poll)
    ensures Awaited(Next(env, s, a).daemon, name, poll) || StartedSince(Next(env, s, a).log, from, name, poll)
  {
    if a.DaemonStart? {
      if s.daemon.pending[a.index].job.name == name {
        assert Next(env, s, a).log[|s.log|].name == name;
      } else {
        WithoutLists(s.daemon.pending, a.index, name);
      }
    }
  }

  /** Whatever else happens: as long as a job of that name stays in the list and the daemon is
      not killed, its start is awaited or done. */
  lemma {:induction false} StaysAwaited(env: Env, s: State, actions: seq<Action>, from: nat, name: string, poll: PollRecord)
    requires Awaited(s.daemon, name, poll) && from <= |s.log|
    requires forall m :: 0 <= m < |actions| ==> !actions[m].DaemonKill? && Has(RunFrom(env, s, actions[..m]).jobs, name)
    ensures var t := RunFrom(env, s, actions);
            from <= |t.log| && (Awaited(t.daemon, name, poll) || StartedSince(t.log, from, name, poll))
  {
    if actions != [] {
      var n := |actions| - 1;
      var front, a, t := actions[..n], actions[n], RunFrom(env, s, actions[..n]);
      forall m | 0 <= m < n ensures !front[m].DaemonKill? && Has(RunFrom(env, s, front[..m]).jobs, name) {
        assert front[..m] == actions[..m] && front[m] == actions[m];
      }
      StaysAwaited(env, s, front, from, name, poll);
      if Enabled(t, a) {
        LogGrows(env, t, a);
        if Awaited(t.daemon, name, poll) {
          StepAwaits(env, t, a, from, name, poll);
        }
      }
    }
  }

  /** A job that a poll lists is started from that poll before the daemon sleeps again, unless
      the daemon is killed or no job of that name is left. */
  lemma DueIsStarted(env: Env, s: State, now: int, readings: seq<Reading>, done: int, name: string, actions: seq<Action>)
    requires Enabled(s, Poll(now, readings, done)) && Lists(DueEntries(env, s.jobs, readings, |s.jobs|), name)
    requires var s1 := Next(env, s, Poll(now, readings, done));
             && (forall m :: 0 <= m < |actions| ==>
                   !actions[m].DaemonKill? && Has(RunFrom(env, s1, actions[..m]).jobs, name))
             && RunFrom(env, s1, actions).daemon.Sleeping?
    ensures var t := RunFrom(env, Next(env, s, Poll(now, readings, done)), actions);
            StartedSince(t.log, |s.log|, name, PollRecord(s.jobs, readings))
  {
    var s1 := Next(env, s, Poll(now, readings, done));
    StaysAwaited(env, s1, actions, |s1.log|, name, PollRecord(s.jobs, readings));
  }

  // ---------------------------------------------------------------- the daemon gets there

  predicate OwnStep(a: Action) {
    a.DaemonCleanup? || a.DaemonStart? || a.DaemonWait?
  }

  lemma RunSnoc(env: Env, s: State, actions: seq<Action>, a: Action)
    ensures var t := RunFrom(env, s, actions);
            RunFrom(env, s, actions + [a]) == if Enabled(t, a) then Next(env, t, a) else t
  {
    assert (actions + [a])[..|actions|] == actions;
  }

  /** `n` starts in a row. */
  lemma {:induction false} StartsAll(env: Env, s: State, n: nat) returns (actions: seq<Action>)
    requires s.daemon.Starting? && n <= |s.daemon.pending|
    ensures forall a :: a in actions ==> OwnStep(a)
    ensures var t := RunFrom(env, s, actions); t.daemon.Starting? && |t.daemon.pending| == |s.daemon.pending| - n
  {
    actions := [];
    if n > 0 {
      var front := StartsAll(env, s, n - 1);
      actions := front + [DaemonStart(0)];
      RunSnoc(env, s, front, DaemonStart(0));
    }
  }

  /** Steps of its own take the daemon through all that a poll left it to do, back to sleep. */
  lemma DaemonFinishes(env: Env, s: State) returns (actions: seq<Action>)
    requires !s.daemon.Sleeping?
    ensures forall a :: a in actions ==> OwnStep(a)
    ensures RunFrom(env, s, actions).daemon.Sleeping?
    decreases s.daemon.Cleaning?
  {
    if s.daemon.Cleaning? {
      var s1 := Next(env, s, DaemonCleanup);
      var rest := DaemonFinishes(env, s1);
      actions := [DaemonCleanup] + rest;
      RunCons(env, s, DaemonCleanup, rest);
    } else {
      var starts := StartsAll(env, s, |s.daemon.pending|);
      actions := starts + [DaemonWait];
      RunSnoc(env, s, starts, DaemonWait);
    }
  }

  lemma {:induction false} RunCons(env: Env, s: State, a: Action, actions: seq<Action>)
    requires Enabled(s, a)
    ensures RunFrom(env, s, [a] + actions) == RunFrom(env, Next(env, s, a), actions)
  {
    if actions == [] {
      assert [a] + actions == [] + [a];
      RunSnoc(env, s, [], a);
    } else {
      var n := |actions| - 1;
      RunCons(env, s, a, actions[..n]);
      RunSnoc(env, s, [a] + actions[..n], actions[n]);
      assert [a] + actions == [a] + actions[..n] + [actions[n]];
    }
  }

  // ---------------------------------------------------------------- single steps

  /** A start, from a poll or by hand, is recorded with its time, in the list and in the history;
      a name that is not in the list starts nothing. */
  lemma StartExactly(s: State, name: string, poll: Option<PollRecord>, k: nat)
    requires UniqueNames(s.jobs) && k < |s.jobs|
    ensures s.jobs[k].name == name ==>
              Start(s, name, poll) == s.(jobs := s.jobs[k := s.jobs[k].(lastRun := Some(s.clock))],
                                         log := s.log + [Started(name, s.jobs[k].expression, s.clock, poll)])
    ensures (forall i :: 0 <= i < |s.jobs| ==> s.jobs[i].name != name) ==> Start(s, name, poll) == s
  {
  }

  /** What steps other than starts do to the list. */
  lemma ListExactly(env: Env, s: State, a: Action, job: Job)
    requires Enabled(s, a) && UniqueNames(s.jobs)
    ensures var jobs := Next(env, s, a).jobs;
            match a
            case Add(name, expression, prompt, yolo) =>
              if yolo && (env.interval(expression).Some? || env.cron(expression))
              then job in jobs <==> job == Job(name, expression, prompt, None, None) || (job in s.jobs && job.name != name)
              else jobs == s.jobs
            case Delete(name) => job in jobs <==> job in s.jobs && job.name != name
            case SetExpiry(name, e) =>
              |jobs| == |s.jobs|
              && forall k :: 0 <= k < |jobs| ==>
                   jobs[k] == if s.jobs[k].name == name then s.jobs[k].(expiresAt := e) else s.jobs[k]
            case Cleanup => job in jobs <==> job in s.jobs && (job.expiresAt.Some? ==> s.clock < job.expiresAt.value)
            case DaemonCleanup => job in jobs <==> job in s.jobs && (job.expiresAt.Some? ==> s.clock < job.expiresAt.value)
            case ManualRun(name) => Next(env, s, a) == Start(s, name, None)
            case DaemonStart(_) => true
            case DaemonKill => Next(env, s, a) == s.(daemon := Sleeping)
            case _ => jobs == s.jobs
  {
    match a
    case Add(name, expression, prompt, _) => AddedExactly(s.jobs, name, expression, prompt, job);
    case Delete(name) => AddedExactly(s.jobs, name, "", "", job);
    case SetExpiry(name, e) =>
      forall k | 0 <= k < |s.jobs| {
        UpdatedExactly(s.jobs, name, 0, e, k);
      }
      if s.jobs != [] {
        UpdatedExactly(s.jobs, name, 0, e, 0);
      }
    case Cleanup => CleanupExactly(s.jobs, s.clock, job);
    case DaemonCleanup => CleanupExactly(s.jobs, s.clock, job);
    case _ =>
  }

  /** Behind a poll the daemon first cleans up, exactly when it saw a job past its expiry. */
  lemma CleansExactly(env: Env, s: State, now: int, readings: seq<Reading>, done: int)
    requires Enabled(s, Poll(now, readings, done))
    ensures Next(env, s, Poll(now, readings, done)).daemon.Cleaning?
            <==> exists job :: job in s.jobs && job.expiresAt.Some? && job.expiresAt.value <= now
  {
    FilterDrops(s.jobs, NotExpired(now));
    if job :| job in s.jobs && job.expiresAt.Some? && job.expiresAt.value <= now {
      var k :| 0 <= k < |s.jobs| && s.jobs[k] == job;
      assert !NotExpired(now)(s.jobs[k]);
    }
    if !All(s.jobs, NotExpired(now)) {
      var k :| 0 <= k < |s.jobs| && !NotExpired(now)(s.jobs[k]);
      assert s.jobs[k] in s.jobs;
    }
  }
}
