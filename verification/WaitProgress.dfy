/** What a waiter has seen, when it is woken and when it is told that the session is over. */
module WaitProgress {
  import opened Text
  import opened WaitProtocol

  predicate Bumps<G>(l: Step<G>) {
    l.FeedBump? || l.ResizeBump?
  }

  /** How many of the first `k` steps announce a change. */
  function BumpCount<G>(ls: seq<Step<G>>, k: nat): nat
    requires k <= |ls|
  {
    if k == 0 then 0 else BumpCount(ls, k - 1) + (if Bumps(ls[k - 1]) then 1 else 0)
  }

  lemma {:induction false} BumpsBetween<G>(ls: seq<Step<G>>, a: nat, b: nat)
    requires a <= b <= |ls|
    ensures BumpCount(ls, a) <= BumpCount(ls, b)
    ensures BumpCount(ls, a) != BumpCount(ls, b) <==> exists i :: a <= i < b && Bumps(ls[i])
    decreases b
  {
    if a < b {
      BumpsBetween(ls, a, b - 1);
    }
  }

  lemma {:induction false} GenerationCounts<G>(holds: (Id, G) -> bool, ss: seq<State<G>>, ls: seq<Step<G>>, k: nat)
    requires Run(holds, ss, ls) && k <= |ls|
    ensures ss[k].generation == BumpCount(ls, k)
  {
    if k > 0 {
      GenerationCounts(holds, ss, ls, k - 1);
      StepAt(holds, ss, ls, k - 1, k);
    }
  }

  /** Step `m` is the last mark of `w` before step `k`. */
  predicate LastMark<G>(ls: seq<Step<G>>, m: nat, k: nat, w: Id) {
    m < k <= |ls| && ls[m] == Mark(w) && forall i :: m < i < k ==> ls[i] != Mark(w)
  }

  predicate HasMarked<G>(s: State<G>, w: Id) {
    w in s.waiters && (s.waiters[w].Marked? || s.waiters[w].Parked?)
  }

  lemma MarkStep<G>(holds: (Id, G) -> bool, s: State<G>, l: Step<G>, t: State<G>, w: Id)
    requires Next(holds, s, l, t) && HasMarked(t, w)
    ensures if l == Mark(w) then t.waiters[w].seen == s.generation
            else HasMarked(s, w) && t.waiters[w].seen == s.waiters[w].seen
  {
  }

  /** The generation that a waiter has seen is the number of bumps before its last mark. */
  lemma {:induction false} SeenAtMark<G>(holds: (Id, G) -> bool, ss: seq<State<G>>, ls: seq<Step<G>>, k: nat, w: Id)
    returns (m: nat)
    requires Run(holds, ss, ls) && k <= |ls| && HasMarked(ss[k], w)
    ensures LastMark(ls, m, k, w) && ss[k].waiters[w].seen == BumpCount(ls, m)
  {
    assert k != 0;
    var j := k - 1;
    StepAt(holds, ss, ls, j, k);
    MarkStep(holds, ss[j], ls[j], ss[k], w);
    if ls[j] == Mark(w) {
      m := j;
      GenerationCounts(holds, ss, ls, j);
    } else {
      m := SeenAtMark(holds, ss, ls, j, w);
    }
  }

  ghost predicate Can<G(!new)>(holds: (Id, G) -> bool, s: State<G>, l: Step<G>) {
    exists t: State<G> :: Next(holds, s, l, t)
  }

  lemma CanWake<G(!new)>(holds: (Id, G) -> bool, s: State<G>, w: Id)
    requires w in s.waiters && s.waiters[w].Parked?
    ensures Can(holds, s, Wake(w)) <==> s.waiters[w].seen != s.generation
    ensures Can(holds, s, End(w)) <==> s.waiters[w].seen == s.generation && SenderGone(s)
  {
    if s.waiters[w].seen != s.generation {
      assert WaiterStep(holds, s, Wake(w), SetWaiter(s, w, Start));
      assert Next(holds, s, Wake(w), SetWaiter(s, w, Start));
    } else if SenderGone(s) {
      assert WaiterStep(holds, s, End(w), SetWaiter(s, w, Leaving(true, s.waiters[w].checked)));
      assert Next(holds, s, End(w), SetWaiter(s, w, Leaving(true, s.waiters[w].checked)));
    }
  }

  /** A parked waiter can be woken exactly when a bump came after its last mark, and is told
      that the session is over exactly when none did and the sender is gone. */
  lemma WokenExactly<G(!new)>(holds: (Id, G) -> bool, ss: seq<State<G>>, ls: seq<Step<G>>, k: nat, w: Id)
    returns (m: nat)
    requires Run(holds, ss, ls) && k <= |ls| && w in ss[k].waiters && ss[k].waiters[w].Parked?
    ensures LastMark(ls, m, k, w)
    ensures Can(holds, ss[k], Wake(w)) <==> exists i :: m < i < k && Bumps(ls[i])
    ensures Can(holds, ss[k], End(w)) <==> SenderGone(ss[k]) && forall i :: m < i < k ==> !Bumps(ls[i])
  {
    m := SeenAtMark(holds, ss, ls, k, w);
    GenerationCounts(holds, ss, ls, k);
    BumpsBetween(ls, m, k);
    CanWake(holds, ss[k], w);
    assert !Bumps(ls[m]);
  }

  // ---------------------------------------------------------------- once the sender is gone

  /** Marking waits for nobody, whoever holds the lock. */
  lemma MarksAtOnce<G(!new)>(holds: (Id, G) -> bool, s: State<G>, w: Id)
    requires w in s.waiters && s.waiters[w] == Start
    ensures exists t: State<G> :: Next(holds, s, Mark(w), t) && t == SetWaiter(s, w, Marked(s.generation))
  {
    assert WaiterStep(holds, s, Mark(w), SetWaiter(s, w, Marked(s.generation)));
    assert Next(holds, s, Mark(w), SetWaiter(s, w, Marked(s.generation)));
  }

  /** From the start of its loop with the lock free, a waiter gets through in steps of its own:
      to a match if its condition holds, and else to the end once the sender is gone. */
  lemma GetsThrough<G(!new)>(holds: (Id, G) -> bool, s: State<G>, w: Id)
    requires w in s.waiters && s.waiters[w] == Start && s.lock == None
    ensures holds(w, s.grid) ==>
              exists t, u :: Next(holds, s, Mark(w), t) && Next(holds, t, Check(w), u) && u.waiters[w] == Matched(s.grid)
    ensures !holds(w, s.grid) && SenderGone(s) ==>
              exists t, u, v: State<G>, x: State<G> ::
                && Next(holds, s, Mark(w), t) && Next(holds, t, Check(w), u) && Next(holds, u, End(w), v)
                && v.waiters[w] == Leaving(true, s.grid)
                && Next(holds, v, Snapshot(w), x) && x.waiters[w] == TimedOut(true, s.grid)
  {
    var t := SetWaiter(s, w, Marked(s.generation));
    assert WaiterStep(holds, s, Mark(w), t);
    var u := SetWaiter(t, w, if holds(w, s.grid) then Matched(s.grid) else Parked(s.generation, s.grid));
    assert WaiterStep(holds, t, Check(w), u);
    assert Next(holds, s, Mark(w), t) && Next(holds, t, Check(w), u);
    if !holds(w, s.grid) && SenderGone(s) {
      var v := SetWaiter(u, w, Leaving(true, s.grid));
      var x := SetWaiter(v, w, TimedOut(true, s.grid));
      assert WaiterStep(holds, u, End(w), v) && WaiterStep(holds, v, Snapshot(w), x);
      assert Next(holds, u, End(w), v) && Next(holds, v, Snapshot(w), x);
    }
  }

  lemma NoBumpWhenGone<G>(holds: (Id, G) -> bool, s: State<G>, l: Step<G>, t: State<G>)
    requires Inv(holds, s) && SenderGone(s) && Next(holds, s, l, t)
    ensures !Bumps(l) && SenderGone(t)
  {
    GridIsFinal(holds, s, l, t);
  }

  lemma {:induction false} NoBumpsAfter<G>(holds: (Id, G) -> bool, ss: seq<State<G>>, ls: seq<Step<G>>, a: nat, b: nat)
    requires Run(holds, ss, ls) && a <= b <= |ls| && SenderGone(ss[a])
    ensures SenderGone(ss[b]) && forall i :: a <= i < b ==> !Bumps(ls[i])
    decreases b
  {
    if a < b {
      var j := b - 1;
      NoBumpsAfter(holds, ss, ls, a, j);
      RunInv(holds, ss, ls, j);
      StepAt(holds, ss, ls, j, b);
      NoBumpWhenGone(holds, ss[j], ls[j], ss[b]);
    }
  }

  lemma StartStep<G>(holds: (Id, G) -> bool, s: State<G>, l: Step<G>, t: State<G>, w: Id)
    requires Next(holds, s, l, t) && w in s.waiters && s.waiters[w] == Start && l != Mark(w)
    ensures w in t.waiters && t.waiters[w] == Start
  {
  }

  lemma {:induction false} StaysAtStart<G>(holds: (Id, G) -> bool, ss: seq<State<G>>, ls: seq<Step<G>>, a: nat, b: nat, w: Id)
    requires Run(holds, ss, ls) && a <= b <= |ls| && w in ss[a].waiters && ss[a].waiters[w] == Start
    requires forall i :: a <= i < b ==> ls[i] != Mark(w)
    ensures w in ss[b].waiters && ss[b].waiters[w] == Start
    decreases b
  {
    if a < b {
      StaysAtStart(holds, ss, ls, a, b - 1, w);
      StepAt(holds, ss, ls, b - 1, b);
      StartStep(holds, ss[b - 1], ls[b - 1], ss[b], w);
    }
  }

  lemma WakeStep<G>(holds: (Id, G) -> bool, s: State<G>, t: State<G>, w: Id)
    requires Next(holds, s, Wake(w), t)
    ensures w in s.waiters && s.waiters[w].Parked? && s.waiters[w].seen != s.generation
    ensures w in t.waiters && t.waiters[w] == Start
  {
  }

  lemma NotTwice<G>(holds: (Id, G) -> bool, ss: seq<State<G>>, ls: seq<Step<G>>, a: nat, i: nat, j: nat, w: Id)
    requires Run(holds, ss, ls) && a <= i < j < |ls| && SenderGone(ss[a]) && ls[i] == Wake(w)
    ensures ls[j] != Wake(w)
  {
    if ls[j] == Wake(w) {
      StepAt(holds, ss, ls, i, i + 1);
      StepAt(holds, ss, ls, j, j + 1);
      WakeStep(holds, ss[i], ss[i + 1], w);
      WakeStep(holds, ss[j], ss[j + 1], w);
      var m := SeenAtMark(holds, ss, ls, j, w);
      GenerationCounts(holds, ss, ls, j);
      BumpsBetween(ls, m, j);
      NoBumpsAfter(holds, ss, ls, a, j);
      if m <= i {
        StaysAtStart(holds, ss, ls, i + 1, j, w);
      }
    }
  }

  /** Once the sender is gone a waiter is woken at most once more. */
  lemma WokenOnce<G>(holds: (Id, G) -> bool, ss: seq<State<G>>, ls: seq<Step<G>>, a: nat, i: nat, j: nat, w: Id)
    requires Run(holds, ss, ls) && a <= i < |ls| && a <= j < |ls| && SenderGone(ss[a])
    requires ls[i] == Wake(w) && ls[j] == Wake(w)
    ensures i == j
  {
    if i < j {
      NotTwice(holds, ss, ls, a, i, j, w);
    } else if j < i {
      NotTwice(holds, ss, ls, a, j, i, w);
    }
  }

  /** A parked waiter can give up at its deadline whatever the others do. */
  lemma DeadlineEnds<G(!new)>(holds: (Id, G) -> bool, s: State<G>, w: Id)
    requires w in s.waiters && s.waiters[w].Parked?
    ensures exists t: State<G> :: Next(holds, s, Timeout(w), t) && t.waiters[w] == Leaving(false, s.waiters[w].checked)
  {
    var t := SetWaiter(s, w, Leaving(false, s.waiters[w].checked));
    assert WaiterStep(holds, s, Timeout(w), t);
    assert Next(holds, s, Timeout(w), t);
  }

  // ---------------------------------------------------------------- the writers

  /** With the lock free, an idle feeder gets its output to the grid and announces it, or exits. */
  lemma FeederGetsThrough<G(!new)>(holds: (Id, G) -> bool, s: State<G>, to: G)
    requires s.feeder == FeederIdle && s.lock == None
    ensures exists a: State<G>, b: State<G>, c: State<G>, t: State<G> ::
              && Next(holds, s, FeedLock, a) && Next(holds, a, Feed(to), b)
              && Next(holds, b, FeedUnlock, c) && Next(holds, c, FeedBump, t)
              && t == s.(grid := to, generation := s.generation + 1, silent := false)
    ensures Next(holds, s, FeedExit, s.(feeder := FeederExited))
  {
    var a := s.(feeder := FeederLocked, lock := Some(ByFeeder));
    var b := a.(feeder := FeederFed, grid := to, silent := false);
    var c := b.(feeder := FeederUnlocked, lock := None);
    var t := c.(feeder := FeederIdle, generation := s.generation + 1);
    assert FeederStep(s, FeedLock, a) && FeederStep(a, Feed(to), b);
    assert FeederStep(b, FeedUnlock, c) && FeederStep(c, FeedBump, t);
    assert Next(holds, s, FeedLock, a) && Next(holds, a, Feed(to), b);
    assert Next(holds, b, FeedUnlock, c) && Next(holds, c, FeedBump, t);
    assert FeederStep(s, FeedExit, s.(feeder := FeederExited));
  }

  /** A resize with the lock free writes the grid, announces it while there is a sender, and
      leaves the lock free; or it fails and leaves the grid alone. */
  lemma ResizerGetsThrough<G(!new)>(holds: (Id, G) -> bool, s: State<G>, r: Id, to: G)
    requires r in s.resizers && s.resizers[r] == ResizerIdle && s.lock == None && s.feeder != FeederExited
    ensures exists a: State<G>, b: State<G>, c: State<G>, d: State<G>, t: State<G> ::
              && Next(holds, s, ResizeLock(r), a) && Next(holds, a, Resize(r, to), b) && Next(holds, b, Upgrade(r), c)
              && Next(holds, c, ResizeBump(r), d) && Next(holds, d, ResizeDrop(r), t)
              && t == SetResizer(s, r, ResizerDone).(grid := to, generation := s.generation + 1, silent := false)
  {
    var a := SetResizer(s, r, ResizerLocked).(lock := Some(ByResizer(r)));
    var b := SetResizer(a, r, ResizerResized).(grid := to, silent := false);
    var c := SetResizer(b, r, ResizerUpgraded);
    var d := SetResizer(c, r, ResizerBumped).(generation := s.generation + 1);
    var t := SetResizer(d, r, ResizerDone).(lock := None);
    assert ResizerStep(s, ResizeLock(r), a) && ResizerStep(a, Resize(r, to), b) && ResizerStep(b, Upgrade(r), c);
    assert ResizerStep(c, ResizeBump(r), d) && ResizerStep(d, ResizeDrop(r), t);
    assert Next(holds, s, ResizeLock(r), a) && Next(holds, a, Resize(r, to), b) && Next(holds, b, Upgrade(r), c);
    assert Next(holds, c, ResizeBump(r), d) && Next(holds, d, ResizeDrop(r), t);
    assert t.resizers == s.resizers[r := ResizerDone];
  }

  /** A resize that the terminal refuses lets go of the lock and changes nothing else. */
  lemma ResizeFails<G(!new)>(holds: (Id, G) -> bool, s: State<G>, r: Id)
    requires r in s.resizers && s.resizers[r] == ResizerIdle && s.lock == None
    ensures exists a: State<G>, t: State<G> ::
              && Next(holds, s, ResizeLock(r), a) && Next(holds, a, ResizeFail(r), t)
              && t == SetResizer(s, r, ResizerDone)
  {
    var a := SetResizer(s, r, ResizerLocked).(lock := Some(ByResizer(r)));
    var t := SetResizer(a, r, ResizerDone).(lock := None);
    assert ResizerStep(s, ResizeLock(r), a) && ResizerStep(a, ResizeFail(r), t);
    assert Next(holds, s, ResizeLock(r), a) && Next(holds, a, ResizeFail(r), t);
    assert t.resizers == s.resizers[r := ResizerDone];
  }
}
