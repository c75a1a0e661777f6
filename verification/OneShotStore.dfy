/** Notes that are recalled once and then forgotten.

    `lower` stands for Unicode lower-casing and a query's `score` for the number
    of its terms that a note contains; nothing is assumed of either. */
module OneShotStore {
  import opened Text
  import opened Sorting

  datatype Shot = Shot(id: string, createdAt: int, topic: string, detail: string, seen: bool)

  type Key = (string, string)

  function NormKey(lower: string -> string): Shot -> Key {
    (s: Shot) => (lower(Trim(s.topic)), lower(Trim(s.detail)))
  }

  /** The note has this topic and this detail, up to case and surrounding white space. */
  predicate SameText(lower: string -> string, s: Shot, topic: string, detail: string) {
    lower(Trim(s.topic)) == lower(Trim(topic)) && lower(Trim(s.detail)) == lower(Trim(detail))
  }

  lemma KeyExactly(lower: string -> string, a: Shot, b: Shot)
    ensures NormKey(lower)(a) == NormKey(lower)(b) <==> SameText(lower, a, b.topic, b.detail)
  {
  }

  datatype Query = Query(score: Shot -> nat, empty: bool)

  datatype Candidate = Candidate(score: nat, createdAt: int, index: nat)

  /** Ranking order: score, then date, then index, the highest first. */
  predicate Outranks(a: Candidate, b: Candidate) {
    || a.score > b.score
    || (a.score == b.score && a.createdAt > b.createdAt)
    || (a.score == b.score && a.createdAt == b.createdAt && a.index >= b.index)
  }

  predicate Matches(q: Query, s: Shot) {
    !s.seen && (q.empty || q.score(s) > 0)
  }

  function CandidateAt(q: Query, notes: seq<Shot>, i: nat): Candidate
    requires i < |notes|
  {
    Candidate(if q.empty then 0 else q.score(notes[i]), notes[i].createdAt, i)
  }

  function Candidates(q: Query, notes: seq<Shot>, m: nat): (r: seq<Candidate>)
    requires m <= |notes|
    ensures forall k :: 0 <= k < |r| ==> r[k].index < m
  {
    if m == 0 then [] else
      Candidates(q, notes, m - 1)
      + (if Matches(q, notes[m - 1]) then [CandidateAt(q, notes, m - 1)] else [])
  }

  function Min(a: nat, b: nat): nat {
    if a < b then a else b
  }

  function Ranked(q: Query, notes: seq<Shot>): seq<Candidate> {
    Sort(Candidates(q, notes, |notes|), Outranks)
  }

  /** The indices a recall of at most `n` notes picks. */
  function Selected(q: Query, notes: seq<Shot>, n: nat): seq<nat> {
    var c := Ranked(q, notes);
    seq(Min(n, |c|), k requires 0 <= k < |c| => c[k].index)
  }

  predicate IndicesBelow(sel: seq<nat>, n: nat) {
    forall k :: 0 <= k < |sel| ==> sel[k] < n
  }

  function MarkAll(notes: seq<Shot>, sel: seq<nat>): (r: seq<Shot>)
    requires IndicesBelow(sel, |notes|)
    ensures |r| == |notes|
    decreases |sel|
  {
    if sel == [] then notes else
      var r := MarkAll(notes, sel[..|sel| - 1]);
      var i := sel[|sel| - 1];
      r[i := r[i].(seen := true)]
  }

  function NotSeen(): Shot -> bool {
    (s: Shot) => !s.seen
  }

  function Unseen(notes: seq<Shot>): seq<Shot> {
    Filter(notes, NotSeen())
  }

  function Pick(notes: seq<Shot>, sel: seq<nat>): (r: seq<Shot>)
    requires IndicesBelow(sel, |notes|)
    ensures |r| == |sel|
    ensures forall k :: 0 <= k < |sel| ==> r[k] == notes[sel[k]]
  {
    seq(|sel|, k requires 0 <= k < |sel| => notes[sel[k]])
  }

  // ---------------------------------------------------------------- operations

  function FindKey(key: Shot -> Key, notes: seq<Shot>, k: Key): (r: Option<Shot>)
    ensures r.Some? ==> r.value in notes && key(r.value) == k
    ensures r.None? ==> forall j :: 0 <= j < |notes| ==> key(notes[j]) != k
  {
    if notes == [] then None
    else if key(notes[0]) == k then Some(notes[0])
    else FindKey(key, notes[1..], k)
  }

  class OneShots {
    var notes: seq<Shot>

    constructor ()
      ensures notes == []
    {
      notes := [];
    }

    /** Records a note unless one with the same normalised text is stored. */
    method Remember(lower: string -> string, topic: string, detail: string, id: string, now: int)
      returns (note: Shot, isNew: bool)
      modifies this
      ensures var created := Shot(id, now, topic, detail, false);
              && isNew == FindKey(NormKey(lower), old(notes), NormKey(lower)(created)).None?
              && notes == old(notes) + (if isNew then [created] else [])
              && (isNew ==> note == created)
              && (!isNew ==> note in old(notes) && SameText(lower, note, topic, detail))
      ensures isNew <==> forall s :: s in old(notes) ==> !SameText(lower, s, topic, detail)
    {
      var key := NormKey(lower);
      var existing := FindKey(key, notes, (lower(Trim(topic)), lower(Trim(detail))));
      if existing.Some? {
        return existing.value, false;
      }
      note, isNew := Shot(id, now, topic, detail, false), true;
      notes := notes + [note];
    }

    method FindCandidates(q: Query) returns (candidates: seq<Candidate>)
      ensures candidates == Candidates(q, notes, |notes|)
    {
      candidates := [];
      for i := 0 to |notes|
        invariant candidates == Candidates(q, notes, i)
      {
        if !notes[i].seen {
          var score := if q.empty then 0 else q.score(notes[i]);
          if q.empty || score > 0 {
            candidates := candidates + [Candidate(score, notes[i].createdAt, i)];
          }
        }
      }
    }

    /** Returns the best `n` unseen matches, marked as seen, and forgets them. */
    method Recall(q: Query, n: nat) returns (returned: seq<Shot>)
      modifies this
      ensures IndicesBelow(Selected(q, old(notes), n), |old(notes)|)
      ensures var marked := MarkAll(old(notes), Selected(q, old(notes), n));
              && returned == Pick(marked, Selected(q, old(notes), n))
              && notes == if returned == [] then old(notes) else Unseen(marked)
    {
      var candidates := FindCandidates(q);
      candidates := Sort(candidates, Outranks);
      var selected := seq(Min(n, |candidates|), k requires 0 <= k < |candidates| => candidates[k].index);
      SelectedValid(q, notes, n);
      if selected == [] {
        return [];
      }
      for d := 0 to |selected|
        invariant |notes| == |old(notes)|
        invariant notes == MarkAll(old(notes), selected[..d])
      {
        notes := notes[selected[d] := notes[selected[d]].(seen := true)];
        assert selected[..d + 1][..d] == selected[..d];
      }
      assert selected[..|selected|] == selected;
      returned := Pick(notes, selected);
      notes := Unseen(notes);
    }
  }

  // ---------------------------------------------------------------- ranking

  lemma {:induction false} CandidatesExactly(q: Query, notes: seq<Shot>, m: nat)
    requires m <= |notes|
    ensures Distinct(Candidates(q, notes, m))
    ensures forall c :: c in Candidates(q, notes, m) <==>
              c.index < m && Matches(q, notes[c.index]) && c == CandidateAt(q, notes, c.index)
  {
    if m > 0 {
      CandidatesExactly(q, notes, m - 1);
    }
  }

  lemma OutranksIsOrder()
    ensures TotalPreorder(Outranks)
  {
  }

  /** Selected indices are distinct, in range and of matching notes. */
  lemma SelectedValid(q: Query, notes: seq<Shot>, n: nat)
    ensures IndicesBelow(Selected(q, notes, n), |notes|)
    ensures Distinct(Selected(q, notes, n))
    ensures forall k :: 0 <= k < |Selected(q, notes, n)| ==> Matches(q, notes[Selected(q, notes, n)[k]])
  {
    var cs := Candidates(q, notes, |notes|);
    var r := Ranked(q, notes);
    CandidatesExactly(q, notes, |notes|);
    SortKeepsElements(cs, Outranks);
    SortPermutes(cs, Outranks);
    DistinctPermutes(cs, r);
    assert forall k :: 0 <= k < |r| ==> r[k] in r;
  }

  function ScoreOf(q: Query, s: Shot): nat {
    if q.empty then 0 else q.score(s)
  }

  /** Note `i` comes before note `j`: by a higher score, or a later date, or a later place. */
  predicate Precedes(q: Query, notes: seq<Shot>, i: nat, j: nat)
    requires i < |notes| && j < |notes|
  {
    var a, b := notes[i], notes[j];
    if ScoreOf(q, a) != ScoreOf(q, b) then ScoreOf(q, a) > ScoreOf(q, b)
    else if a.createdAt != b.createdAt then a.createdAt > b.createdAt
    else i > j
  }

  lemma OutranksExactly(q: Query, notes: seq<Shot>, i: nat, j: nat)
    requires i < |notes| && j < |notes| && i != j
    ensures Outranks(CandidateAt(q, notes, i), CandidateAt(q, notes, j)) <==> Precedes(q, notes, i, j)
  {
  }

  /** The places of the notes that a query asks for. */
  function Wanted(q: Query, notes: seq<Shot>, m: nat): set<nat>
    requires m <= |notes|
  {
    set i: nat | i < m && !notes[i].seen && (q.empty || q.score(notes[i]) > 0)
  }

  lemma {:induction false} CandidatesCount(q: Query, notes: seq<Shot>, m: nat)
    requires m <= |notes|
    ensures |Candidates(q, notes, m)| == |Wanted(q, notes, m)|
  {
    if m == 0 {
      assert Wanted(q, notes, 0) == {};
    } else {
      var n := m - 1;
      CandidatesCount(q, notes, n);
      WantedStep(q, notes, n, m);
    }
  }

  lemma WantedStep(q: Query, notes: seq<Shot>, n: nat, m: nat)
    requires m == n + 1 <= |notes|
    ensures |Wanted(q, notes, m)| == |Wanted(q, notes, n)| + (if Matches(q, notes[n]) then 1 else 0)
  {
    assert Wanted(q, notes, m) == Wanted(q, notes, n) + (if Matches(q, notes[n]) then {n} else {});
  }

  lemma SelectedRanked(q: Query, notes: seq<Shot>, n: nat)
    ensures IndicesBelow(Selected(q, notes, n), |notes|)
    ensures |Selected(q, notes, n)| == Min(n, |Candidates(q, notes, |notes|)|)
    ensures forall j, k :: 0 <= j < k < |Selected(q, notes, n)| ==>
              Outranks(CandidateAt(q, notes, Selected(q, notes, n)[j]), CandidateAt(q, notes, Selected(q, notes, n)[k]))
  {
    SelectedValid(q, notes, n);
    var cs, r := Candidates(q, notes, |notes|), Ranked(q, notes);
    CandidatesExactly(q, notes, |notes|);
    SortKeepsElements(cs, Outranks);
    OutranksIsOrder();
    SortSorts(cs, Outranks);
    assert forall k :: 0 <= k < |r| ==> r[k] in r;
  }

  /** A recall takes notes that the query asks for, as many as it can, best first. */
  lemma SelectedBest(q: Query, notes: seq<Shot>, n: nat)
    ensures IndicesBelow(Selected(q, notes, n), |notes|) && Distinct(Selected(q, notes, n))
    ensures forall k :: 0 <= k < |Selected(q, notes, n)| ==> Selected(q, notes, n)[k] in Wanted(q, notes, |notes|)
    ensures |Selected(q, notes, n)| == Min(n, |Wanted(q, notes, |notes|)|)
    ensures forall j, k :: 0 <= j < k < |Selected(q, notes, n)| ==>
              Precedes(q, notes, Selected(q, notes, n)[j], Selected(q, notes, n)[k])
  {
    SelectedValid(q, notes, n);
    SelectedRanked(q, notes, n);
    CandidatesCount(q, notes, |notes|);
    var sel := Selected(q, notes, n);
    forall j, k | 0 <= j < k < |sel| ensures Precedes(q, notes, sel[j], sel[k]) {
      OutranksExactly(q, notes, sel[j], sel[k]);
    }
  }

  lemma RankOf(q: Query, notes: seq<Shot>, n: nat, k: nat, i: nat)
    requires i < |notes| && Matches(q, notes[i])
    requires k < |Selected(q, notes, n)| && i !in Selected(q, notes, n)
    ensures Selected(q, notes, n)[k] < |notes|
    ensures Outranks(CandidateAt(q, notes, Selected(q, notes, n)[k]), CandidateAt(q, notes, i))
  {
    SelectedValid(q, notes, n);
    var cs, r := Candidates(q, notes, |notes|), Ranked(q, notes);
    CandidatesExactly(q, notes, |notes|);
    SortKeepsElements(cs, Outranks);
    OutranksIsOrder();
    SortSorts(cs, Outranks);
    assert r[k] in r;
    assert CandidateAt(q, notes, i) in r;
    var p :| 0 <= p < |r| && r[p] == CandidateAt(q, notes, i);
    var sel := Selected(q, notes, n);
    assert forall x :: 0 <= x < |sel| ==> sel[x] in sel && r[x].index == sel[x];
    assert p >= |sel|;
  }

  /** Every note that the query asks for and that is left behind comes after the returned ones. */
  lemma NoneLeftBetter(q: Query, notes: seq<Shot>, n: nat, k: nat, i: nat)
    requires i in Wanted(q, notes, |notes|)
    requires k < |Selected(q, notes, n)| && i !in Selected(q, notes, n)
    ensures Selected(q, notes, n)[k] < |notes|
    ensures Precedes(q, notes, Selected(q, notes, n)[k], i)
  {
    RankOf(q, notes, n, k, i);
    OutranksExactly(q, notes, Selected(q, notes, n)[k], i);
  }

  // ---------------------------------------------------------------- conservation

  lemma UnseenSplit(a: seq<Shot>, s: Shot, b: seq<Shot>)
    ensures Unseen(a + [s] + b) == Unseen(a) + (if s.seen then [] else [s]) + Unseen(b)
  {
    FilterConcat(a + [s], b, NotSeen());
    assert (a + [s])[..|a|] == a;
  }

  lemma Middle(a: seq<Shot>, s: Shot, b: seq<Shot>)
    ensures multiset(a + [s] + b) == multiset(a + [] + b) + multiset{s}
  {
  }

  lemma UnseenWithout(t: seq<Shot>, i: nat, s: Shot)
    requires i < |t| && !t[i].seen && s == t[i].(seen := true)
    ensures multiset(Unseen(t)) == multiset(Unseen(t[i := s])) + multiset{t[i]}
  {
    var a, b := t[..i], t[i + 1..];
    assert t == a + [t[i]] + b && t[i := s] == a + [s] + b;
    UnseenSplit(a, t[i], b);
    UnseenSplit(a, s, b);
    Middle(Unseen(a), t[i], Unseen(b));
  }

  lemma {:induction false} MarkAllAt(notes: seq<Shot>, sel: seq<nat>, i: nat)
    requires IndicesBelow(sel, |notes|) && i < |notes|
    ensures i !in sel ==> MarkAll(notes, sel)[i] == notes[i]
    ensures i in sel ==> MarkAll(notes, sel)[i] == notes[i].(seen := true)
    decreases |sel|
  {
    if sel != [] {
      var n := |sel| - 1;
      assert sel == sel[..n] + [sel[n]];
      MarkAllAt(notes, sel[..n], i);
    }
  }

  predicate AllUnseen(notes: seq<Shot>) {
    forall i :: 0 <= i < |notes| ==> !notes[i].seen
  }

  lemma ForgetsOne(notes: seq<Shot>, sel: seq<nat>, i: nat)
    requires IndicesBelow(sel, |notes|) && i < |notes| && i !in sel && !notes[i].seen
    ensures multiset(Unseen(MarkAll(notes, sel))) == multiset(Unseen(MarkAll(notes, sel + [i]))) + multiset{notes[i]}
  {
    assert (sel + [i])[..|sel|] == sel;
    MarkAllAt(notes, sel, i);
    UnseenWithout(MarkAll(notes, sel), i, notes[i].(seen := true));
  }

  lemma PickLast(notes: seq<Shot>, sel: seq<nat>, i: nat)
    requires IndicesBelow(sel, |notes|) && i < |notes|
    ensures Pick(notes, sel + [i]) == Pick(notes, sel) + [notes[i]]
  {
  }

  lemma TakeOut(all: multiset<Shot>, rest: multiset<Shot>, less: multiset<Shot>, picked: seq<Shot>, s: Shot)
    requires all == rest + multiset(picked) && rest == less + multiset{s}
    ensures all == less + multiset(picked + [s])
  {
  }

  /** Marking and forgetting takes out exactly the selected notes. */
  lemma {:induction false} ForgetsSelected(notes: seq<Shot>, sel: seq<nat>)
    requires IndicesBelow(sel, |notes|) && Distinct(sel)
    requires forall k :: 0 <= k < |sel| ==> !notes[sel[k]].seen
    ensures multiset(Unseen(notes)) == multiset(Unseen(MarkAll(notes, sel))) + multiset(Pick(notes, sel))
    decreases |sel|
  {
    if sel != [] {
      var n := |sel| - 1;
      var front, last := sel[..n], sel[n];
      assert sel == front + [last];
      ForgetsSelected(notes, front);
      ForgetsOne(notes, front, last);
      PickLast(notes, front, last);
      TakeOut(multiset(Unseen(notes)), multiset(Unseen(MarkAll(notes, front))),
              multiset(Unseen(MarkAll(notes, sel))), Pick(notes, front), notes[last]);
    }
  }

  lemma {:induction false} UnseenAll(notes: seq<Shot>)
    requires AllUnseen(notes)
    ensures Unseen(notes) == notes
  {
    if notes != [] {
      UnseenAll(notes[..|notes| - 1]);
    }
  }

  predicate DistinctKeys(key: Shot -> Key, notes: seq<Shot>) {
    forall j, k :: 0 <= j < k < |notes| ==> key(notes[j]) != key(notes[k])
  }

  lemma UnseenFrom(notes: seq<Shot>)
    ensures AllUnseen(Unseen(notes))
  {
    FilterElements(notes, NotSeen());
    var u := Unseen(notes);
    assert forall i :: 0 <= i < |u| ==> u[i] in u;
  }

  lemma {:induction false} UnseenKeeps(key: Shot -> Key, notes: seq<Shot>)
    requires DistinctKeys(key, notes)
    ensures DistinctKeys(key, Unseen(notes))
  {
    if notes != [] {
      var n := |notes| - 1;
      UnseenKeeps(key, notes[..n]);
      var u := Unseen(notes[..n]);
      FilterElements(notes[..n], NotSeen());
      forall k | 0 <= k < |u| ensures key(u[k]) != key(notes[n]) {
        assert u[k] in u;
      }
    }
  }

  // ---------------------------------------------------------------- runs

  datatype Op =
    | Remember(topic: string, detail: string, id: string, now: int)
    | Recall(q: Query, n: nat)

  /** The stored notes, with every note recorded as new and every note returned so far. */
  datatype History = History(stored: seq<Shot>, recorded: seq<Shot>, returned: seq<Shot>)

  function Step(key: Shot -> Key, h: History, op: Op): History {
    match op
    case Remember(topic, detail, id, now) =>
      var s := Shot(id, now, topic, detail, false);
      if FindKey(key, h.stored, key(s)).Some? then h
      else h.(stored := h.stored + [s], recorded := h.recorded + [s])
    case Recall(q, n) =>
      SelectedValid(q, h.stored, n);
      var sel := Selected(q, h.stored, n);
      var marked := MarkAll(h.stored, sel);
      h.(stored := if sel == [] then h.stored else Unseen(marked), returned := h.returned + Pick(marked, sel))
  }

  function Run(key: Shot -> Key, ops: seq<Op>): History {
    if ops == [] then History([], [], []) else
      Step(key, Run(key, ops[..|ops| - 1]), ops[|ops| - 1])
  }

  function Forgotten(s: Shot): Shot {
    s.(seen := false)
  }

  /** Returned notes as they were recorded. */
  function AsRecorded(s: seq<Shot>): (r: seq<Shot>)
    ensures |r| == |s|
    ensures forall k :: 0 <= k < |s| ==> r[k] == Forgotten(s[k])
  {
    seq(|s|, k requires 0 <= k < |s| => Forgotten(s[k]))
  }

  ghost predicate SeenBlind(key: Shot -> Key) {
    forall s: Shot :: key(s) == key(Forgotten(s))
  }

  ghost predicate Inv(key: Shot -> Key, h: History) {
    && AllUnseen(h.stored)
    && DistinctKeys(key, h.stored)
    && (forall k :: 0 <= k < |h.returned| ==> h.returned[k].seen)
    && multiset(h.recorded) == multiset(h.stored) + multiset(AsRecorded(h.returned))
  }

  lemma MarkedDistinct(key: Shot -> Key, notes: seq<Shot>, sel: seq<nat>)
    requires SeenBlind(key) && DistinctKeys(key, notes) && AllUnseen(notes) && IndicesBelow(sel, |notes|)
    ensures DistinctKeys(key, MarkAll(notes, sel))
  {
    var marked := MarkAll(notes, sel);
    forall i | 0 <= i < |notes| ensures key(marked[i]) == key(notes[i]) {
      MarkAllAt(notes, sel, i);
      assert Forgotten(marked[i]) == notes[i];
    }
  }

  lemma PickedMarked(notes: seq<Shot>, sel: seq<nat>)
    requires IndicesBelow(sel, |notes|) && AllUnseen(notes)
    ensures AsRecorded(Pick(MarkAll(notes, sel), sel)) == Pick(notes, sel)
    ensures forall k :: 0 <= k < |sel| ==> Pick(MarkAll(notes, sel), sel)[k].seen
  {
    forall k | 0 <= k < |sel| ensures MarkAll(notes, sel)[sel[k]] == notes[sel[k]].(seen := true) {
      assert sel[k] in sel;
      MarkAllAt(notes, sel, sel[k]);
    }
  }

  /** What a recall that picks `sel` leaves behind. */
  lemma LeftBehind(key: Shot -> Key, notes: seq<Shot>, sel: seq<nat>)
    requires SeenBlind(key) && DistinctKeys(key, notes) && AllUnseen(notes)
    requires IndicesBelow(sel, |notes|) && Distinct(sel)
    ensures var left := Unseen(MarkAll(notes, sel));
            && AllUnseen(left) && DistinctKeys(key, left)
            && multiset(notes) == multiset(left) + multiset(Pick(notes, sel))
  {
    MarkedDistinct(key, notes, sel);
    UnseenKeeps(key, MarkAll(notes, sel));
    UnseenFrom(MarkAll(notes, sel));
    UnseenAll(notes);
    ForgetsSelected(notes, sel);
  }

  lemma AsRecordedAppend(a: seq<Shot>, b: seq<Shot>)
    ensures AsRecorded(a + b) == AsRecorded(a) + AsRecorded(b)
  {
  }

  lemma RecallKeepsInv(key: Shot -> Key, h: History, q: Query, n: nat)
    requires SeenBlind(key) && Inv(key, h)
    ensures Inv(key, Step(key, h, Recall(q, n)))
  {
    SelectedValid(q, h.stored, n);
    var sel := Selected(q, h.stored, n);
    var got := Pick(MarkAll(h.stored, sel), sel);
    PickedMarked(h.stored, sel);
    AsRecordedAppend(h.returned, got);
    LeftBehind(key, h.stored, sel);
    var next := Step(key, h, Recall(q, n));
    assert next.returned == h.returned + got;
    assert multiset(h.stored) == multiset(next.stored) + multiset(Pick(h.stored, sel));
  }

  lemma RememberKeepsInv(key: Shot -> Key, h: History, topic: string, detail: string, id: string, now: int)
    requires Inv(key, h)
    ensures Inv(key, Step(key, h, Remember(topic, detail, id, now)))
  {
  }

  lemma {:induction false} RunInv(key: Shot -> Key, ops: seq<Op>)
    requires SeenBlind(key)
    ensures Inv(key, Run(key, ops))
  {
    if ops != [] {
      var h := Run(key, ops[..|ops| - 1]);
      RunInv(key, ops[..|ops| - 1]);
      match ops[|ops| - 1]
      case Remember(topic, detail, id, now) => RememberKeepsInv(key, h, topic, detail, id, now);
      case Recall(q, n) => RecallKeepsInv(key, h, q, n);
    }
  }

  predicate FreshIds(ops: seq<Op>) {
    forall i, j :: 0 <= i < j < |ops| && ops[i].Remember? && ops[j].Remember? ==> ops[i].id != ops[j].id
  }

  lemma {:induction false} RecordedFresh(key: Shot -> Key, ops: seq<Op>)
    requires FreshIds(ops)
    ensures Distinct(Run(key, ops).recorded)
    ensures forall s :: s in Run(key, ops).recorded ==>
              exists k :: 0 <= k < |ops| && ops[k].Remember? && ops[k].id == s.id
  {
    if ops != [] {
      var n := |ops| - 1;
      RecordedFresh(key, ops[..n]);
      forall s | s in Run(key, ops[..n]).recorded
        ensures exists k :: 0 <= k < n && ops[k].Remember? && ops[k].id == s.id
      {
        var k :| 0 <= k < n && ops[..n][k].Remember? && ops[..n][k].id == s.id;
        assert ops[k].id == s.id;
      }
    }
  }

  /** At all times every recorded note is either stored, unseen, or was returned
      by exactly one recall; stored notes differ after normalisation. */
  lemma ReturnedOnce(lower: string -> string, ops: seq<Op>, s: Shot)
    requires FreshIds(ops) && s in Run(NormKey(lower), ops).recorded
    ensures var h := Run(NormKey(lower), ops);
            && multiset(h.stored)[s] + multiset(AsRecorded(h.returned))[s] == 1
            && AllUnseen(h.stored)
            && DistinctKeys(NormKey(lower), h.stored)
  {
    var key := NormKey(lower);
    assert SeenBlind(key);
    RunInv(key, ops);
    RecordedFresh(key, ops);
    var recorded := Run(key, ops).recorded;
    CountOnce(recorded, s);
    assert s in multiset(recorded);
  }
}
