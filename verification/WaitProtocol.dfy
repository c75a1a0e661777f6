/** The wait protocol of a PTY session: the feeder task, resize calls and waiters, as
    interleaved steps over a shared grid, its lock and the generation watch.

    `holds(w, g)` says whether the Text, Gone or Regex condition of waiter `w` is met by
    grid `g`. Of the watch channel one thing is assumed: `changed()` reports an unseen value
    before it reports that the sender is gone. */
module WaitProtocol {
  import opened Text

  type Id = nat

  // The feeder changes the grid under the lock, releases it, and then bumps the generation.
  datatype Feeder = FeederIdle | FeederLocked | FeederFed | FeederUnlocked | FeederExited

  // A resize holds the lock throughout. It upgrades its weak sender only after the grid change.
  datatype Resizer = ResizerIdle | ResizerLocked | ResizerResized | ResizerUpgraded | ResizerBumped | ResizerDone

  datatype Waiter<G> =
    | Start
    | Marked(seen: nat)
    | Parked(seen: nat, checked: G)
    | Leaving(ended: bool, checked: G)
    | Matched(screen: G)
    | TimedOut(ended: bool, screen: G)

  datatype Holder = ByFeeder | ByResizer(id: Id)

  datatype State<G> = State(
    grid: G,
    generation: nat,
    lock: Option<Holder>,
    feeder: Feeder,
    resizers: map<Id, Resizer>,
    waiters: map<Id, Waiter<G>>,
    // The grid was last written by a resize that found the sender gone and skipped its bump.
    silent: bool)

  /** The feeder owns the sender; a resize keeps it alive between its upgrade and its drop. */
  predicate SenderGone<G>(s: State<G>) {
    s.feeder == FeederExited &&
    forall r :: r in s.resizers ==> s.resizers[r] != ResizerUpgraded && s.resizers[r] != ResizerBumped
  }

  predicate Init<G>(s: State<G>) {
    && s.generation == 0 && s.lock == None && s.feeder == FeederIdle && !s.silent
    && (forall r :: r in s.resizers ==> s.resizers[r] == ResizerIdle)
    && (forall w :: w in s.waiters ==> s.waiters[w] == Start)
  }

  datatype Step<G> =
    | FeedLock | Feed(to: G) | FeedUnlock | FeedBump | FeedExit
    | ResizeLock(r: Id) | ResizeFail(r: Id) | Resize(r: Id, to: G) | Upgrade(r: Id) | ResizeBump(r: Id) | ResizeDrop(r: Id)
    | Mark(w: Id) | Check(w: Id) | Wake(w: Id) | End(w: Id) | Timeout(w: Id) | Snapshot(w: Id)

  predicate FeederStep<G(==)>(s: State<G>, l: Step<G>, t: State<G>) {
    match l
    case FeedLock => s.feeder == FeederIdle && s.lock == None && t == s.(feeder := FeederLocked, lock := Some(ByFeeder))
    case Feed(to) => s.feeder == FeederLocked && t == s.(feeder := FeederFed, grid := to, silent := false)
    case FeedUnlock => s.feeder == FeederFed && t == s.(feeder := FeederUnlocked, lock := None)
    case FeedBump => s.feeder == FeederUnlocked && t == s.(feeder := FeederIdle, generation := s.generation + 1)
    case FeedExit => s.feeder == FeederIdle && t == s.(feeder := FeederExited)
    case _ => false
  }

  function SetResizer<G>(s: State<G>, r: Id, pc: Resizer): State<G> {
    s.(resizers := s.resizers[r := pc])
  }

  predicate ResizerStep<G(==)>(s: State<G>, l: Step<G>, t: State<G>) {
    match l
    case ResizeLock(r) => r in s.resizers && s.resizers[r] == ResizerIdle && s.lock == None
                          && t == SetResizer(s, r, ResizerLocked).(lock := Some(ByResizer(r)))
    case ResizeFail(r) => r in s.resizers && s.resizers[r] == ResizerLocked
                          && t == SetResizer(s, r, ResizerDone).(lock := None)
    case Resize(r, to) => r in s.resizers && s.resizers[r] == ResizerLocked
                          && t == SetResizer(s, r, ResizerResized).(grid := to, silent := false)
    case Upgrade(r) => r in s.resizers && s.resizers[r] == ResizerResized
                       && t == (if SenderGone(s) then SetResizer(s, r, ResizerDone).(lock := None, silent := true)
                                else SetResizer(s, r, ResizerUpgraded))
    case ResizeBump(r) => r in s.resizers && s.resizers[r] == ResizerUpgraded
                          && t == SetResizer(s, r, ResizerBumped).(generation := s.generation + 1)
    case ResizeDrop(r) => r in s.resizers && s.resizers[r] == ResizerBumped
                          && t == SetResizer(s, r, ResizerDone).(lock := None)
    case _ => false
  }

  function SetWaiter<G>(s: State<G>, w: Id, pc: Waiter<G>): State<G> {
    s.(waiters := s.waiters[w := pc])
  }

  /** The grid is only looked at under the lock; a woken waiter starts over by marking the
      current generation as seen. */
  predicate WaiterStep<G(==)>(holds: (Id, G) -> bool, s: State<G>, l: Step<G>, t: State<G>) {
    match l
    case Mark(w) => w in s.waiters && s.waiters[w] == Start && t == SetWaiter(s, w, Marked(s.generation))
    case Check(w) => w in s.waiters && s.waiters[w].Marked? && s.lock == None
                     && t == SetWaiter(s, w, if holds(w, s.grid) then Matched(s.grid) else Parked(s.waiters[w].seen, s.grid))
    case Wake(w) => w in s.waiters && s.waiters[w].Parked? && s.waiters[w].seen != s.generation
                    && t == SetWaiter(s, w, Start)
    case End(w) => w in s.waiters && s.waiters[w].Parked? && s.waiters[w].seen == s.generation && SenderGone(s)
                   && t == SetWaiter(s, w, Leaving(true, s.waiters[w].checked))
    case Timeout(w) => w in s.waiters && s.waiters[w].Parked?
                       && t == SetWaiter(s, w, Leaving(false, s.waiters[w].checked))
    case Snapshot(w) => w in s.waiters && s.waiters[w].Leaving? && s.lock == None
                        && t == SetWaiter(s, w, TimedOut(s.waiters[w].ended, s.grid))
    case _ => false
  }

  predicate Next<G(==)>(holds: (Id, G) -> bool, s: State<G>, l: Step<G>, t: State<G>) {
    FeederStep(s, l, t) || ResizerStep(s, l, t) || WaiterStep(holds, s, l, t)
  }

  // ---------------------------------------------------------------- what every step keeps

  /** A writer stands between its grid change and its bump. */
  predicate FeederPending<G>(s: State<G>) {
    s.feeder == FeederFed || s.feeder == FeederUnlocked
  }

  predicate ResizerPending<G>(s: State<G>) {
    exists r :: r in s.resizers && (s.resizers[r] == ResizerResized || s.resizers[r] == ResizerUpgraded)
  }

  predicate Active(pc: Resizer) {
    pc != ResizerIdle && pc != ResizerDone
  }

  /** The lock is held exactly by the writer that is inside its critical section. */
  predicate LockInv<G>(s: State<G>) {
    && (s.lock == Some(ByFeeder) <==> s.feeder == FeederLocked || s.feeder == FeederFed)
    && (forall r :: r in s.resizers && Active(s.resizers[r]) ==> s.lock == Some(ByResizer(r)))
  }

  /** Whatever a waiter has not checked is announced, about to be announced, or written silently. */
  predicate Accounted<G(==)>(s: State<G>, seen: nat, checked: G) {
    s.grid == checked || seen < s.generation || FeederPending(s) || ResizerPending(s) || s.silent
  }

  predicate WaiterInv<G(==)>(holds: (Id, G) -> bool, s: State<G>, w: Id, pc: Waiter<G>) {
    match pc
    case Start => true
    case Marked(seen) => seen <= s.generation
    case Parked(seen, checked) => seen <= s.generation && !holds(w, checked) && Accounted(s, seen, checked)
    case Leaving(ended, checked) =>
      !holds(w, checked) && (ended ==> SenderGone(s) && (s.grid == checked || ResizerPending(s) || s.silent))
    case Matched(screen) => holds(w, screen)
    case TimedOut(ended, screen) => true
  }

  predicate WaitersInv<G(==)>(holds: (Id, G) -> bool, s: State<G>) {
    forall w :: w in s.waiters ==> WaiterInv(holds, s, w, s.waiters[w])
  }

  predicate Inv<G(==)>(holds: (Id, G) -> bool, s: State<G>) {
    && LockInv(s)
    && (s.silent ==> SenderGone(s))
    && WaitersInv(holds, s)
  }

  lemma InitInv<G>(holds: (Id, G) -> bool, s: State<G>)
    requires Init(s)
    ensures Inv(holds, s)
  {
  }

  lemma FeederKeeps<G>(holds: (Id, G) -> bool, s: State<G>, l: Step<G>, t: State<G>)
    requires Inv(holds, s) && FeederStep(s, l, t)
    ensures Inv(holds, t)
  {
  }

  /** A sender that is gone stays gone. */
  lemma GoneStays<G>(s: State<G>, l: Step<G>, t: State<G>)
    requires ResizerStep(s, l, t) && SenderGone(s)
    ensures SenderGone(t)
  {
  }

  lemma ResizerLockInv<G>(s: State<G>, l: Step<G>, t: State<G>)
    requires LockInv(s) && ResizerStep(s, l, t)
    ensures LockInv(t)
    ensures t.lock == None ==> !ResizerPending(t)
  {
  }

  /** The lock lets at most one resize be pending. */
  lemma PendingAfter<G>(s: State<G>, l: Step<G>, t: State<G>)
    requires LockInv(s) && ResizerStep(s, l, t)
    ensures l.Resize? ==> ResizerPending(t)
    ensures ResizerPending(s) && !l.Resize? ==>
              ResizerPending(t) || t.generation == s.generation + 1 || t.silent
    ensures !l.Resize? ==> t.grid == s.grid
    ensures l.ResizeBump? ==> !SenderGone(s)
    ensures s.generation <= t.generation && (s.silent && !l.Resize? ==> t.silent) && t.feeder == s.feeder && t.waiters == s.waiters
    ensures t.generation == s.generation || l.ResizeBump?
  {
    if l.Resize? {
      assert t.resizers[l.r] == ResizerResized;
    } else if ResizerPending(s) {
      var r :| r in s.resizers && (s.resizers[r] == ResizerResized || s.resizers[r] == ResizerUpgraded);
      assert r in t.resizers;
      assert s.lock == Some(ByResizer(r));
    }
  }

  lemma ResizerKeeps<G>(holds: (Id, G) -> bool, s: State<G>, l: Step<G>, t: State<G>)
    requires Inv(holds, s) && ResizerStep(s, l, t)
    ensures Inv(holds, t)
  {
    ResizerLockInv(s, l, t);
    PendingAfter(s, l, t);
    if SenderGone(s) {
      GoneStays(s, l, t);
    }
    forall w | w in t.waiters ensures WaiterInv(holds, t, w, t.waiters[w]) {
      assert WaiterInv(holds, s, w, s.waiters[w]);
    }
    assert t.silent ==> SenderGone(t);
  }

  lemma WaiterKeeps<G>(holds: (Id, G) -> bool, s: State<G>, l: Step<G>, t: State<G>)
    requires Inv(holds, s) && WaiterStep(holds, s, l, t)
    ensures Inv(holds, t)
  {
    assert SenderGone(s) == SenderGone(t);
    assert ResizerPending(s) == ResizerPending(t);
    assert s.lock == None ==> !ResizerPending(s);
    forall w | w in t.waiters ensures WaiterInv(holds, t, w, t.waiters[w]) {
      if w in s.waiters {
        assert WaiterInv(holds, s, w, s.waiters[w]);
      }
    }
  }

  /** An interleaving of all the steps, in any order. */
  predicate Run<G(==)>(holds: (Id, G) -> bool, ss: seq<State<G>>, ls: seq<Step<G>>) {
    && |ss| == |ls| + 1 && Init(ss[0])
    && forall k :: 0 <= k < |ls| ==> Next(holds, ss[k], ls[k], ss[k + 1])
  }

  lemma {:induction false} RunInv<G>(holds: (Id, G) -> bool, ss: seq<State<G>>, ls: seq<Step<G>>, k: nat)
    requires Run(holds, ss, ls) && k <= |ls|
    ensures Inv(holds, ss[k])
  {
    if k == 0 {
      InitInv(holds, ss[0]);
    } else {
      RunInv(holds, ss, ls, k - 1);
      assert Next(holds, ss[k - 1], ls[k - 1], ss[k]);
      if FeederStep(ss[k - 1], ls[k - 1], ss[k]) {
        FeederKeeps(holds, ss[k - 1], ls[k - 1], ss[k]);
      } else if ResizerStep(ss[k - 1], ls[k - 1], ss[k]) {
        ResizerKeeps(holds, ss[k - 1], ls[k - 1], ss[k]);
      } else {
        WaiterKeeps(holds, ss[k - 1], ls[k - 1], ss[k]);
      }
    }
  }

  /** No lost wakeup: while a waiter is parked and its condition holds, it has an unseen
      generation, a writer is about to bump, or the sender is gone. */
  lemma NoLostWakeup<G>(holds: (Id, G) -> bool, ss: seq<State<G>>, ls: seq<Step<G>>, k: nat, w: Id)
    requires Run(holds, ss, ls) && k <= |ls|
    requires w in ss[k].waiters && ss[k].waiters[w].Parked? && holds(w, ss[k].grid)
    ensures var s := ss[k];
            s.waiters[w].seen < s.generation || FeederPending(s) || ResizerPending(s) || SenderGone(s)
  {
    RunInv(holds, ss, ls, k);
    assert WaiterInv(holds, ss[k], w, ss[k].waiters[w]);
  }

  // ---------------------------------------------------------------- outcomes

  predicate Writes<G>(l: Step<G>) {
    l.Feed? || l.Resize?
  }

  lemma GridStep<G>(holds: (Id, G) -> bool, s: State<G>, l: Step<G>, t: State<G>)
    requires Next(holds, s, l, t)
    ensures t.grid == if Writes(l) then l.to else s.grid
  {
  }

  /** Step `i` wrote the grid that stands before step `k`. */
  predicate LastWrite<G>(ls: seq<Step<G>>, i: nat, k: nat) {
    i < k <= |ls| && Writes(ls[i]) && forall m :: i < m < k ==> !Writes(ls[m])
  }

  lemma {:induction false} Unwritten<G>(holds: (Id, G) -> bool, ss: seq<State<G>>, ls: seq<Step<G>>, a: nat, b: nat)
    requires Run(holds, ss, ls) && a <= b <= |ls| && forall m :: a <= m < b ==> !Writes(ls[m])
    ensures ss[a].grid == ss[b].grid
    decreases b
  {
    if a < b {
      var m := b - 1;
      Unwritten(holds, ss, ls, a, m);
      StepAt(holds, ss, ls, m, b);
      GridStep(holds, ss[m], ls[m], ss[b]);
    }
  }

  lemma StepAt<G>(holds: (Id, G) -> bool, ss: seq<State<G>>, ls: seq<Step<G>>, m: nat, k: nat)
    requires Run(holds, ss, ls) && m < |ls| && k == m + 1
    ensures Next(holds, ss[m], ls[m], ss[k])
  {
  }

  lemma WrittenGrid<G>(holds: (Id, G) -> bool, ss: seq<State<G>>, ls: seq<Step<G>>, i: nat, k: nat)
    requires Run(holds, ss, ls) && LastWrite(ls, i, k)
    ensures ss[k].grid == ls[i].to
  {
    var next := i + 1;
    StepAt(holds, ss, ls, i, next);
    GridStep(holds, ss[i], ls[i], ss[next]);
    Unwritten(holds, ss, ls, next, k);
  }

  lemma ResizedStep<G>(holds: (Id, G) -> bool, s: State<G>, l: Step<G>, t: State<G>, r: Id)
    requires LockInv(s) && Next(holds, s, l, t) && r in t.resizers && t.resizers[r] == ResizerResized
    ensures l == Resize(r, t.grid) || (r in s.resizers && s.resizers[r] == ResizerResized && !Writes(l))
  {
    if r in s.resizers && Active(s.resizers[r]) {
      assert s.lock == Some(ByResizer(r));
    }
  }

  /** A resize that is about to ask for the sender made the last write. */
  lemma {:induction false} ResizedWrote<G>(holds: (Id, G) -> bool, ss: seq<State<G>>, ls: seq<Step<G>>, k: nat, r: Id)
    returns (i: nat)
    requires Run(holds, ss, ls) && k <= |ls| && r in ss[k].resizers && ss[k].resizers[r] == ResizerResized
    ensures LastWrite(ls, i, k) && ls[i].Resize? && ls[i].r == r
  {
    assert k != 0;
    var m := k - 1;
    RunInv(holds, ss, ls, m);
    StepAt(holds, ss, ls, m, k);
    ResizedStep(holds, ss[m], ls[m], ss[k], r);
    if ls[m] == Resize(r, ss[k].grid) {
      i := m;
    } else {
      i := ResizedWrote(holds, ss, ls, m, r);
    }
  }

  /** Step `i` is a resize that wrote the grid which stands before step `k`, and at step `j`
      it asked for the sender in vain. */
  predicate WroteSilently<G>(ss: seq<State<G>>, ls: seq<Step<G>>, i: nat, j: nat, k: nat) {
    && LastWrite(ls, i, k) && ls[i].Resize? && i < j < k < |ss|
    && ls[j] == Upgrade(ls[i].r) && SenderGone(ss[j])
  }

  lemma SilentStep<G>(holds: (Id, G) -> bool, s: State<G>, l: Step<G>, t: State<G>)
    requires Next(holds, s, l, t) && t.silent
    ensures !Writes(l)
    ensures s.silent || (l.Upgrade? && SenderGone(s) && l.r in s.resizers && s.resizers[l.r] == ResizerResized)
  {
  }

  lemma {:induction false} SilentMeans<G>(holds: (Id, G) -> bool, ss: seq<State<G>>, ls: seq<Step<G>>, k: nat)
    returns (i: nat, j: nat)
    requires Run(holds, ss, ls) && k <= |ls| && ss[k].silent
    ensures WroteSilently(ss, ls, i, j, k)
  {
    assert k != 0;
    var m := k - 1;
    StepAt(holds, ss, ls, m, k);
    SilentStep(holds, ss[m], ls[m], ss[k]);
    if ss[m].silent {
      i, j := SilentMeans(holds, ss, ls, m);
    } else {
      i := ResizedWrote(holds, ss, ls, m, ls[m].r);
      j := m;
    }
  }

  predicate Awaits<G>(s: State<G>, w: Id) {
    w in s.waiters && (s.waiters[w].Parked? || s.waiters[w].Leaving?)
  }

  lemma AwaitStep<G>(holds: (Id, G) -> bool, s: State<G>, l: Step<G>, t: State<G>, w: Id)
    requires Next(holds, s, l, t) && Awaits(t, w)
    ensures if l == Check(w) then t.waiters[w].checked == s.grid
            else Awaits(s, w) && s.waiters[w].checked == t.waiters[w].checked
  {
  }

  /** Step `c` is the last check of `w` before step `k`, and `w` has awaited a change since. */
  predicate LastCheck<G>(ss: seq<State<G>>, ls: seq<Step<G>>, c: nat, k: nat, w: Id) {
    c < k <= |ls| < |ss| && ls[c] == Check(w) && forall m :: c < m <= k ==> Awaits(ss[m], w)
  }

  lemma {:induction false} CheckedAt<G>(holds: (Id, G) -> bool, ss: seq<State<G>>, ls: seq<Step<G>>, k: nat, w: Id)
    returns (c: nat)
    requires Run(holds, ss, ls) && k <= |ls| && Awaits(ss[k], w)
    ensures LastCheck(ss, ls, c, k, w) && ss[c].grid == ss[k].waiters[w].checked
  {
    assert k != 0;
    var m := k - 1;
    StepAt(holds, ss, ls, m, k);
    AwaitStep(holds, ss[m], ls[m], ss[k], w);
    if ls[m] == Check(w) {
      c := m;
    } else {
      c := CheckedAt(holds, ss, ls, m, w);
    }
  }

  lemma {:induction false} SnapshotAt<G>(holds: (Id, G) -> bool, ss: seq<State<G>>, ls: seq<Step<G>>, k: nat, w: Id)
    returns (n: nat)
    requires Run(holds, ss, ls) && k <= |ls| && w in ss[k].waiters && ss[k].waiters[w].TimedOut?
    ensures n < k && ls[n] == Snapshot(w) && w in ss[n].waiters && ss[n].waiters[w].Leaving? && ss[n].lock == None
    ensures ss[n].grid == ss[k].waiters[w].screen && ss[n].waiters[w].ended == ss[k].waiters[w].ended
  {
    assert k != 0;
    var m := k - 1;
    StepAt(holds, ss, ls, m, k);
    if ls[m] == Snapshot(w) {
      n := m;
    } else {
      n := SnapshotAt(holds, ss, ls, m, w);
    }
  }

  /** After the check at `c`, a resize wrote the grid of the snapshot at `n` silently. */
  predicate Missed<G>(ss: seq<State<G>>, ls: seq<Step<G>>, c: nat, n: nat, i: nat, j: nat) {
    c < i && WroteSilently(ss, ls, i, j, n)
  }

  /** What an ended waiter sees differs from what it checked only if it was written silently. */
  lemma EndedSees<G>(holds: (Id, G) -> bool, ss: seq<State<G>>, ls: seq<Step<G>>, c: nat, n: nat, w: Id)
    returns (i: nat, j: nat)
    requires Run(holds, ss, ls) && LastCheck(ss, ls, c, n, w) && ss[c].grid == ss[n].waiters[w].checked
    requires ss[n].waiters[w].Leaving? && ss[n].waiters[w].ended && ss[n].lock == None
    ensures ss[n].grid != ss[c].grid ==> Missed(ss, ls, c, n, i, j)
  {
    i, j := 0, 0;
    RunInv(holds, ss, ls, n);
    assert WaiterInv(holds, ss[n], w, ss[n].waiters[w]);
    if ss[n].grid != ss[c].grid {
      i, j := SilentMeans(holds, ss, ls, n);
      if i < c {
        Unwritten(holds, ss, ls, c, n);
      }
    }
  }

  /** An outcome flagged `ended` shows a grid that meets the condition exactly when, after the
      waiter's last check, a resize wrote that grid, met the condition with it, and then
      asked for the sender in vain. Other resizes, before or after, do no harm. */
  lemma EndedExactly<G>(holds: (Id, G) -> bool, ss: seq<State<G>>, ls: seq<Step<G>>, k: nat, w: Id)
    returns (c: nat, n: nat)
    requires Run(holds, ss, ls) && k <= |ls| && w in ss[k].waiters
    requires ss[k].waiters[w].TimedOut? && ss[k].waiters[w].ended
    ensures n < k && ls[n] == Snapshot(w) && LastCheck(ss, ls, c, n, w) && ss[n].grid == ss[k].waiters[w].screen
    ensures holds(w, ss[k].waiters[w].screen) <==>
            exists i: nat, j: nat :: Missed(ss, ls, c, n, i, j) && holds(w, ls[i].to)
  {
    n := SnapshotAt(holds, ss, ls, k, w);
    c := CheckedAt(holds, ss, ls, n, w);
    RunInv(holds, ss, ls, n);
    assert WaiterInv(holds, ss[n], w, ss[n].waiters[w]);
    var i, j := EndedSees(holds, ss, ls, c, n, w);
    forall i: nat, j: nat | Missed(ss, ls, c, n, i, j) ensures ss[n].grid == ls[i].to {
      WrittenGrid(holds, ss, ls, i, n);
    }
  }

  /** While `w` awaited a change, a resize asked for the sender in vain. */
  predicate MissedBump<G>(ss: seq<State<G>>, ls: seq<Step<G>>, j: nat, w: Id) {
    j < |ls| < |ss| && ls[j].Upgrade? && SenderGone(ss[j]) && Awaits(ss[j], w)
  }

  /** A match is reported only for a grid that met the condition; and an outcome flagged
      `ended` shows a grid that does not meet it, unless a resize asked for the sender in
      vain while this waiter was waiting. */
  lemma OutcomesTrue<G>(holds: (Id, G) -> bool, ss: seq<State<G>>, ls: seq<Step<G>>, k: nat, w: Id)
    requires Run(holds, ss, ls) && k <= |ls| && w in ss[k].waiters
    ensures ss[k].waiters[w].Matched? ==> holds(w, ss[k].waiters[w].screen)
    ensures (ss[k].waiters[w].TimedOut? && ss[k].waiters[w].ended && holds(w, ss[k].waiters[w].screen)) ==>
              exists j :: 0 <= j < k && MissedBump(ss, ls, j, w)
  {
    RunInv(holds, ss, ls, k);
    assert WaiterInv(holds, ss[k], w, ss[k].waiters[w]);
    if ss[k].waiters[w].TimedOut? && ss[k].waiters[w].ended && holds(w, ss[k].waiters[w].screen) {
      var c, n := EndedExactly(holds, ss, ls, k, w);
      var i: nat, j: nat :| Missed(ss, ls, c, n, i, j) && holds(w, ls[i].to);
      assert MissedBump(ss, ls, j, w);
    }
  }

  /** Once the sender is gone, only a resize can still change the grid. */
  lemma GridIsFinal<G>(holds: (Id, G) -> bool, s: State<G>, l: Step<G>, t: State<G>)
    requires Inv(holds, s) && SenderGone(s) && Next(holds, s, l, t)
    ensures SenderGone(t) && (t.grid == s.grid || l.Resize?)
  {
    if ResizerStep(s, l, t) {
      GoneStays(s, l, t);
    }
  }

  /** After the feeder's exit no resize changes the grid or asks for the sender. */
  predicate NoLateResize<G>(ss: seq<State<G>>, ls: seq<Step<G>>, k: nat)
    requires k <= |ls| < |ss|
  {
    forall j :: 0 <= j < k && ss[j].feeder == FeederExited ==> !ls[j].Resize? && !ls[j].Upgrade?
  }

  predicate EndedOnFinalGrid<G(==)>(s: State<G>, w: Id)
    requires w in s.waiters
  {
    s.waiters[w].TimedOut? && s.waiters[w].ended ==> SenderGone(s) && s.waiters[w].screen == s.grid
  }

  lemma FinalStep<G>(holds: (Id, G) -> bool, s: State<G>, l: Step<G>, t: State<G>, w: Id)
    requires Inv(holds, s) && Next(holds, s, l, t) && w in s.waiters && EndedOnFinalGrid(s, w)
    requires SenderGone(s) ==> !l.Resize?
    ensures w in t.waiters && EndedOnFinalGrid(t, w)
  {
    assert WaiterInv(holds, s, w, s.waiters[w]);
    if SenderGone(s) {
      GridIsFinal(holds, s, l, t);
    }
  }

  lemma RunStep<G>(holds: (Id, G) -> bool, ss: seq<State<G>>, ls: seq<Step<G>>, j: nat, k: nat)
    requires Run(holds, ss, ls) && j < |ls| && k == j + 1 && NoLateResize(ss, ls, k)
    ensures Next(holds, ss[j], ls[j], ss[k]) && (SenderGone(ss[j]) ==> !ls[j].Resize?)
  {
  }

  lemma {:induction false} EndedStays<G>(holds: (Id, G) -> bool, ss: seq<State<G>>, ls: seq<Step<G>>, k: nat, w: Id)
    requires Run(holds, ss, ls) && k <= |ls| && NoLateResize(ss, ls, k) && w in ss[0].waiters
    ensures w in ss[k].waiters && EndedOnFinalGrid(ss[k], w)
  {
    if k > 0 {
      var j := k - 1;
      EndedStays(holds, ss, ls, j, w);
      RunInv(holds, ss, ls, j);
      RunStep(holds, ss, ls, j, k);
      FinalStep(holds, ss[j], ls[j], ss[k], w);
    }
  }

  /** If no resize is under way or begun after the feeder's exit, an outcome flagged `ended`
      shows the final grid, and that does not meet the condition, now or later. */
  lemma EndedIsFinal<G>(holds: (Id, G) -> bool, ss: seq<State<G>>, ls: seq<Step<G>>, k: nat, w: Id)
    requires Run(holds, ss, ls) && k <= |ls| && NoLateResize(ss, ls, k) && w in ss[0].waiters
    ensures w in ss[k].waiters
    ensures ss[k].waiters[w].TimedOut? && ss[k].waiters[w].ended ==>
              ss[k].waiters[w].screen == ss[k].grid && !holds(w, ss[k].grid)
  {
    EndedStays(holds, ss, ls, k, w);
    OutcomesTrue(holds, ss, ls, k, w);
  }

  /** The steps that a pending writer still has to take, up to its bump. */
  function Announced<G>(s: State<G>, r: Option<Id>): State<G>
    requires r.Some? ==> r.value in s.resizers
  {
    if r.None? then s.(feeder := FeederIdle, lock := if s.feeder == FeederFed then None else s.lock, generation := s.generation + 1)
    else if SenderGone(s) then SetResizer(s, r.value, ResizerDone).(lock := None, silent := true)
    else SetResizer(s, r.value, ResizerBumped).(generation := s.generation + 1)
  }

  /** Two steps or fewer lead from `s` to `u`. */
  ghost predicate Near<G(!new)>(holds: (Id, G) -> bool, s: State<G>, u: State<G>) {
    exists l, m: State<G>, n :: Next(holds, s, l, u) || (Next(holds, s, l, m) && Next(holds, m, n, u))
  }

  lemma ResizerAnnounces<G(!new)>(holds: (Id, G) -> bool, s: State<G>, r: Id)
    requires r in s.resizers && (s.resizers[r] == ResizerResized || s.resizers[r] == ResizerUpgraded)
    ensures Near(holds, s, Announced(s, Some(r)))
    ensures Announced(s, Some(r)).generation > s.generation || SenderGone(Announced(s, Some(r)))
  {
    var t := Announced(s, Some(r));
    var m := SetResizer(s, r, ResizerUpgraded);
    if s.resizers[r] == ResizerUpgraded {
      assert ResizerStep(s, ResizeBump(r), t);
      assert Next(holds, s, ResizeBump(r), t);
    } else if SenderGone(s) {
      assert ResizerStep(s, Upgrade(r), t);
      assert Next(holds, s, Upgrade(r), t);
    } else {
      assert ResizerStep(s, Upgrade(r), m);
      assert m.resizers[r := ResizerBumped] == s.resizers[r := ResizerBumped];
      assert ResizerStep(m, ResizeBump(r), t);
      assert Next(holds, s, Upgrade(r), m) && Next(holds, m, ResizeBump(r), t);
    }
  }

  /** A pending writer waits for nobody: at most two of its own steps lead to its bump, or
      to the discovery that the sender is gone. */
  lemma PendingAnnounces<G(!new)>(holds: (Id, G) -> bool, s: State<G>) returns (r: Option<Id>)
    requires Inv(holds, s) && (FeederPending(s) || ResizerPending(s))
    ensures (r.Some? ==> r.value in s.resizers) && Near(holds, s, Announced(s, r))
    ensures Announced(s, r).generation > s.generation || SenderGone(Announced(s, r))
  {
    if FeederPending(s) {
      r := None;
      var t := Announced(s, None);
      var m := s.(feeder := FeederUnlocked, lock := None);
      if s.feeder == FeederFed {
        assert FeederStep(s, FeedUnlock, m) && FeederStep(m, FeedBump, t);
        assert Next(holds, s, FeedUnlock, m) && Next(holds, m, FeedBump, t);
      } else {
        assert FeederStep(s, FeedBump, t);
        assert Next(holds, s, FeedBump, t);
      }
    } else {
      var id :| id in s.resizers && (s.resizers[id] == ResizerResized || s.resizers[id] == ResizerUpgraded);
      r := Some(id);
      ResizerAnnounces(holds, s, id);
    }
  }

  predicate CanLeave<G(==)>(holds: (Id, G) -> bool, s: State<G>, w: Id)
    requires w in s.waiters && s.waiters[w].Parked?
  {
    || Next(holds, s, Wake(w), SetWaiter(s, w, Start))
    || Next(holds, s, End(w), SetWaiter(s, w, Leaving(true, s.waiters[w].checked)))
  }

  lemma LeavesIfNews<G>(holds: (Id, G) -> bool, s: State<G>, w: Id)
    requires w in s.waiters && s.waiters[w].Parked?
    ensures CanLeave(holds, s, w) <==> s.waiters[w].seen != s.generation || SenderGone(s)
  {
    var woken, ended := SetWaiter(s, w, Start), SetWaiter(s, w, Leaving(true, s.waiters[w].checked));
    assert WaiterStep(holds, s, Wake(w), woken) <==> s.waiters[w].seen != s.generation;
    assert WaiterStep(holds, s, End(w), ended) <==> s.waiters[w].seen == s.generation && SenderGone(s);
  }

  /** A parked waiter whose condition holds can leave the wait, now or after at most two
      steps of a writer, which wait for nobody. */
  lemma WaiterIsWoken<G(!new)>(holds: (Id, G) -> bool, s: State<G>, w: Id) returns (u: State<G>)
    requires Inv(holds, s) && w in s.waiters && s.waiters[w].Parked? && holds(w, s.grid)
    ensures u == s || Near(holds, s, u)
    ensures u.waiters == s.waiters && CanLeave(holds, u, w)
  {
    assert WaiterInv(holds, s, w, s.waiters[w]);
    if FeederPending(s) || ResizerPending(s) {
      var r := PendingAnnounces(holds, s);
      u := Announced(s, r);
    } else {
      u := s;
    }
    LeavesIfNews(holds, u, w);
  }

  /** The grid is a flag, and the condition of every waiter is that it is set. */
  predicate IsSet(w: Id, g: bool) {
    g
  }

  function At(grid: bool, lock: Option<Holder>, feeder: Feeder, r: Resizer, w: Waiter<bool>, silent: bool): State<bool> {
    State(grid, 0, lock, feeder, map[0 := r], map[0 := w], silent)
  }

  function SkippedSteps(): seq<Step<bool>> {
    [Mark(0), Check(0), ResizeLock(0), Resize(0, true), FeedExit, End(0), Upgrade(0), Snapshot(0)]
  }

  function SkippedStates(): seq<State<bool>> {
    var byResize := Some(ByResizer(0));
    [ At(false, None, FeederIdle, ResizerIdle, Start, false),
      At(false, None, FeederIdle, ResizerIdle, Marked(0), false),
      At(false, None, FeederIdle, ResizerIdle, Parked(0, false), false),
      At(false, byResize, FeederIdle, ResizerLocked, Parked(0, false), false),
      At(true, byResize, FeederIdle, ResizerResized, Parked(0, false), false),
      At(true, byResize, FeederExited, ResizerResized, Parked(0, false), false),
      At(true, byResize, FeederExited, ResizerResized, Leaving(true, false), false),
      At(true, None, FeederExited, ResizerDone, Leaving(true, false), true),
      At(true, None, FeederExited, ResizerDone, TimedOut(true, true), true) ]
  }

  lemma WaiterMoves(grid: bool, lock: Option<Holder>, feeder: Feeder, r: Resizer, a: Waiter<bool>, b: Waiter<bool>, silent: bool)
    ensures SetWaiter(At(grid, lock, feeder, r, a, silent), 0, b) == At(grid, lock, feeder, r, b, silent)
  {
  }

  lemma ResizerMoves(grid: bool, lock: Option<Holder>, feeder: Feeder, a: Resizer, b: Resizer, w: Waiter<bool>, silent: bool)
    ensures SetResizer(At(grid, lock, feeder, a, w, silent), 0, b) == At(grid, lock, feeder, b, w, silent)
  {
  }

  lemma WaiterParks()
    ensures forall k :: 0 <= k < 2 ==> Next(IsSet, SkippedStates()[k], SkippedSteps()[k], SkippedStates()[k + 1])
  {
    var ss, ls := SkippedStates(), SkippedSteps();
    WaiterMoves(false, None, FeederIdle, ResizerIdle, Start, Marked(0), false);
    assert WaiterStep(IsSet, ss[0], ls[0], ss[1]);
    WaiterMoves(false, None, FeederIdle, ResizerIdle, Marked(0), Parked(0, false), false);
    assert WaiterStep(IsSet, ss[1], ls[1], ss[2]);
  }

  lemma ResizeChangesGrid()
    ensures forall k :: 2 <= k < 4 ==> Next(IsSet, SkippedStates()[k], SkippedSteps()[k], SkippedStates()[k + 1])
  {
    var ss, ls := SkippedStates(), SkippedSteps();
    ResizerMoves(false, None, FeederIdle, ResizerIdle, ResizerLocked, Parked(0, false), false);
    assert ResizerStep(ss[2], ls[2], ss[3]);
    ResizerMoves(false, Some(ByResizer(0)), FeederIdle, ResizerLocked, ResizerResized, Parked(0, false), false);
    assert ResizerStep(ss[3], ls[3], ss[4]);
  }

  lemma FeederExits()
    ensures forall k :: 4 <= k < 6 ==> Next(IsSet, SkippedStates()[k], SkippedSteps()[k], SkippedStates()[k + 1])
  {
    var ss, ls := SkippedStates(), SkippedSteps();
    assert FeederStep(ss[4], ls[4], ss[5]);
    WaiterMoves(true, Some(ByResizer(0)), FeederExited, ResizerResized, Parked(0, false), Leaving(true, false), false);
    assert WaiterStep(IsSet, ss[5], ls[5], ss[6]);
  }

  lemma WaiterReports()
    ensures forall k :: 6 <= k < 8 ==> Next(IsSet, SkippedStates()[k], SkippedSteps()[k], SkippedStates()[k + 1])
  {
    var ss, ls := SkippedStates(), SkippedSteps();
    ResizerMoves(true, Some(ByResizer(0)), FeederExited, ResizerResized, ResizerDone, Leaving(true, false), false);
    assert ResizerStep(ss[6], ls[6], ss[7]);
    WaiterMoves(true, None, FeederExited, ResizerDone, Leaving(true, false), TimedOut(true, true), true);
    assert WaiterStep(IsSet, ss[7], ls[7], ss[8]);
  }

  /** The exception is real, even for a resize that changes the grid before the feeder
      exits: the waiter reports `ended` with a grid that meets its condition. */
  lemma SkippedBumpMisses()
    ensures Run(IsSet, SkippedStates(), SkippedSteps())
    ensures SkippedStates()[8].waiters[0] == TimedOut(true, true) && IsSet(0, true)
  {
    WaiterParks();
    ResizeChangesGrid();
    FeederExits();
    WaiterReports();
  }
}
