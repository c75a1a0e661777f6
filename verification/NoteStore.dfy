/** The persistent notes and their compaction.

    `lower` stands for Unicode lower-casing; nothing is assumed of it. */
module NoteStore {
  import opened Text
  import opened Sorting

  datatype Note = Note(id: string, createdAt: int, tags: seq<string>, content: string, accessCount: nat)

  /** The content key: trimmed and lower-cased. */
  function ContentKey(lower: string -> string): Note -> string {
    (n: Note) => lower(Trim(n.content))
  }

  // ---------------------------------------------------------------- tags

  /** The order of strings: by code points, a prefix first. */
  predicate StringLeq(a: string, b: string) {
    a == "" || (b != "" && (a[0] < b[0] || (a[0] == b[0] && StringLeq(a[1..], b[1..]))))
  }

  /** A string comes before another if it is its beginning, or smaller where they first differ. */
  lemma {:induction false} StringLeqExactly(a: string, b: string, k: nat)
    requires k <= |a| && k <= |b| && a[..k] == b[..k]
    ensures k == |a| ==> StringLeq(a, b)
    ensures k < |a| && k < |b| && a[k] != b[k] ==> (StringLeq(a, b) <==> a[k] < b[k])
    ensures k == |b| < |a| ==> !StringLeq(a, b)
  {
    if k > 0 {
      assert a[0] == a[..k][0] == b[..k][0] == b[0];
      assert a[1..][..k - 1] == a[..k][1..] && b[1..][..k - 1] == b[..k][1..];
      StringLeqExactly(a[1..], b[1..], k - 1);
    }
  }

  /** `Vec::dedup`: drops an element that equals its predecessor. */
  function Dedup(s: seq<string>): (r: seq<string>)
    ensures forall t :: t in r <==> t in s
    ensures s != [] ==> r != [] && r[|r| - 1] == s[|s| - 1]
  {
    if |s| <= 1 then s else
      var r := Dedup(s[..|s| - 1]);
      if s[|s| - 1] == s[|s| - 2] then r else r + [s[|s| - 1]]
  }

  function MergeTags(a: seq<string>, b: seq<string>): seq<string> {
    Dedup(Sort(a + b, StringLeq))
  }

  lemma {:induction false} LeqTotal(a: string, b: string)
    ensures StringLeq(a, b) || StringLeq(b, a)
    ensures StringLeq(a, b) && StringLeq(b, a) ==> a == b
  {
    if a != "" && b != "" {
      LeqTotal(a[1..], b[1..]);
      assert a == [a[0]] + a[1..] && b == [b[0]] + b[1..];
    }
  }

  lemma {:induction false} LeqTransitive(a: string, b: string, c: string)
    requires StringLeq(a, b) && StringLeq(b, c)
    ensures StringLeq(a, c)
  {
    if a != "" && b != "" && c != "" && a[0] == b[0] == c[0] {
      LeqTransitive(a[1..], b[1..], c[1..]);
    }
  }

  lemma LeqIsPreorder()
    ensures TotalPreorder(StringLeq)
  {
    forall a, b ensures StringLeq(a, b) || StringLeq(b, a) {
      LeqTotal(a, b);
    }
    forall a, b, c | StringLeq(a, b) && StringLeq(b, c) ensures StringLeq(a, c) {
      LeqTransitive(a, b, c);
    }
  }

  lemma {:induction false} DedupSorted(s: seq<string>)
    requires Sorted(s, StringLeq)
    ensures Sorted(Dedup(s), StringLeq) && Distinct(Dedup(s))
  {
    if |s| > 1 {
      var n := |s| - 1;
      var r := Dedup(s[..n]);
      DedupSorted(s[..n]);
      if s[n] != s[n - 1] {
        forall i | 0 <= i < |r| ensures StringLeq(r[i], s[n]) && r[i] != s[n] {
          assert r[i] in s[..n];
          var j :| 0 <= j < n && s[j] == r[i];
          assert j == n - 1 || StringLeq(s[j], s[n - 1]);
          LeqTotal(s[n - 1], s[n]);
        }
      }
    }
  }

  /** Merged tags are the union, sorted and without repetition. */
  lemma MergeTagsIsUnion(a: seq<string>, b: seq<string>)
    ensures Sorted(MergeTags(a, b), StringLeq) && Distinct(MergeTags(a, b))
    ensures forall t :: t in MergeTags(a, b) <==> t in a || t in b
  {
    LeqIsPreorder();
    SortSorts(a + b, StringLeq);
    DedupSorted(Sort(a + b, StringLeq));
    SortKeepsElements(a + b, StringLeq);
  }

  // ---------------------------------------------------------------- compaction

  /** The key looks at the content alone. */
  ghost predicate ByContent(key: Note -> string) {
    forall a: Note, b: Note :: a.content == b.content ==> key(a) == key(b)
  }

  function Merge(keep: Note, dup: Note): Note {
    keep.(tags := MergeTags(keep.tags, dup.tags),
          createdAt := if dup.createdAt > keep.createdAt then dup.createdAt else keep.createdAt)
  }

  predicate IsFirst(key: Note -> string, notes: seq<Note>, i: nat)
    requires i < |notes|
  {
    forall j :: 0 <= j < i ==> key(notes[j]) != key(notes[i])
  }

  /** Note `i` after merging the later notes of its class with an index below `m`. */
  function Gathered(key: Note -> string, notes: seq<Note>, i: nat, m: nat): Note
    requires i < |notes| && m <= |notes|
  {
    if m <= i + 1 then notes[i] else
      var g := Gathered(key, notes, i, m - 1);
      if key(notes[m - 1]) == key(notes[i]) then Merge(g, notes[m - 1]) else g
  }

  /** The indices below `m` that compaction keeps. */
  function Survivors(key: Note -> string, notes: seq<Note>, m: nat): (r: seq<nat>)
    requires m <= |notes|
    ensures forall k :: 0 <= k < |r| ==> r[k] < m
  {
    if m == 0 then [] else
      Survivors(key, notes, m - 1)
      + (if IsFirst(key, notes, m - 1) && notes[m - 1].content != "" then [m - 1] else [])
  }

  /** Compaction as promised: one gathered note for every survivor, in order. */
  function Compacted(key: Note -> string, notes: seq<Note>): (r: seq<Note>)
    ensures |r| == |Survivors(key, notes, |notes|)|
    ensures forall k :: 0 <= k < |r| ==> r[k] == Gathered(key, notes, Survivors(key, notes, |notes|)[k], |notes|)
  {
    var s := Survivors(key, notes, |notes|);
    seq(|s|, k requires 0 <= k < |s| => Gathered(key, notes, s[k], |notes|))
  }

  // ---------------------------------------------------------------- the three passes

  datatype Pair = Pair(keep: nat, dup: nat)

  /** The first note, from `k` on, with the content key of note `i`. */
  function FirstFrom(key: Note -> string, notes: seq<Note>, k: nat, i: nat): (r: nat)
    requires k <= i < |notes|
    requires forall j :: 0 <= j < k ==> key(notes[j]) != key(notes[i])
    ensures r <= i && key(notes[r]) == key(notes[i]) && IsFirst(key, notes, r)
    decreases i - k
  {
    if key(notes[k]) == key(notes[i]) then k else FirstFrom(key, notes, k + 1, i)
  }

  function FirstIndex(key: Note -> string, notes: seq<Note>, i: nat): (k: nat)
    requires i < |notes|
    ensures k <= i && key(notes[k]) == key(notes[i]) && IsFirst(key, notes, k)
  {
    FirstFrom(key, notes, 0, i)
  }

  lemma FirstsAgree(key: Note -> string, notes: seq<Note>, i: nat, j: nat)
    requires i < |notes| && j < |notes| && key(notes[i]) == key(notes[j])
    requires IsFirst(key, notes, i) && IsFirst(key, notes, j)
    ensures i == j
  {
  }

  function Dups(key: Note -> string, notes: seq<Note>, m: nat): (r: seq<Pair>)
    requires m <= |notes|
    ensures PairsBelow(r, m)
  {
    if m == 0 then [] else
      Dups(key, notes, m - 1)
      + (if IsFirst(key, notes, m - 1) then [] else [Pair(FirstIndex(key, notes, m - 1), m - 1)])
  }

  predicate PairsBelow(pairs: seq<Pair>, n: nat) {
    forall k :: 0 <= k < |pairs| ==> pairs[k].keep < n && pairs[k].dup < n
  }

  function MergePair(notes: seq<Note>, p: Pair): (r: seq<Note>)
    requires p.keep < |notes| && p.dup < |notes|
    ensures |r| == |notes|
  {
    var s := notes[p.keep := Merge(notes[p.keep], notes[p.dup])];
    s[p.dup := s[p.dup].(content := "")]
  }

  function MergePairs(notes: seq<Note>, pairs: seq<Pair>): (r: seq<Note>)
    requires PairsBelow(pairs, |notes|)
    ensures |r| == |notes|
    decreases |pairs|
  {
    if pairs == [] then notes else
      MergePair(MergePairs(notes, pairs[..|pairs| - 1]), pairs[|pairs| - 1])
  }

  function HasContent(): Note -> bool {
    (n: Note) => n.content != ""
  }

  function Filled(notes: seq<Note>): seq<Note> {
    Filter(notes, HasContent())
  }

  /** Note `i` after the merges of the duplicates below index `m`. */
  function MergedAt(key: Note -> string, notes: seq<Note>, m: nat, i: nat): Note
    requires m <= |notes| && i < |notes|
  {
    if IsFirst(key, notes, i) then Gathered(key, notes, i, m)
    else if i < m then notes[i].(content := "")
    else notes[i]
  }

  predicate MergedBelow(key: Note -> string, notes: seq<Note>, m: nat, cur: seq<Note>)
    requires m <= |notes|
  {
    |cur| == |notes| && forall i :: 0 <= i < |notes| ==> cur[i] == MergedAt(key, notes, m, i)
  }

  lemma MergeStep(key: Note -> string, notes: seq<Note>, m: nat, cur: seq<Note>)
    requires m < |notes| && MergedBelow(key, notes, m, cur) && !IsFirst(key, notes, m)
    ensures MergedBelow(key, notes, m + 1, MergePair(cur, Pair(FirstIndex(key, notes, m), m)))
  {
  }

  lemma MergeLast(notes: seq<Note>, pairs: seq<Pair>, p: Pair)
    requires PairsBelow(pairs, |notes|) && p.keep < |notes| && p.dup < |notes|
    ensures MergePairs(notes, pairs + [p]) == MergePair(MergePairs(notes, pairs), p)
  {
  }

  /** A note that opens a class is merged into nothing. */
  lemma FirstStep(key: Note -> string, notes: seq<Note>, m: nat, cur: seq<Note>)
    requires m < |notes| && MergedBelow(key, notes, m, cur) && IsFirst(key, notes, m)
    ensures MergedBelow(key, notes, m + 1, cur)
  {
  }

  lemma {:induction false} MergedPairs(key: Note -> string, notes: seq<Note>, m: nat) returns (cur: seq<Note>)
    requires m <= |notes|
    ensures cur == MergePairs(notes, Dups(key, notes, m)) && MergedBelow(key, notes, m, cur)
  {
    if m == 0 {
      cur := notes;
    } else {
      var before := MergedPairs(key, notes, m - 1);
      var pairs := Dups(key, notes, m - 1);
      if IsFirst(key, notes, m - 1) {
        cur := before;
        assert Dups(key, notes, m) == pairs;
        FirstStep(key, notes, m - 1, before);
      } else {
        var p := Pair(FirstIndex(key, notes, m - 1), m - 1);
        cur := MergePair(before, p);
        assert Dups(key, notes, m) == pairs + [p];
        MergeStep(key, notes, m - 1, before);
        MergeLast(notes, pairs, p);
      }
    }
  }

  lemma {:induction false} GatheredContent(key: Note -> string, notes: seq<Note>, i: nat, m: nat)
    requires i < |notes| && m <= |notes|
    ensures var g := Gathered(key, notes, i, m);
            g.id == notes[i].id && g.content == notes[i].content && g.accessCount == notes[i].accessCount
    decreases m
  {
    if m > i + 1 {
      GatheredContent(key, notes, i, m - 1);
    }
  }

  lemma {:induction false} FilledBelow(key: Note -> string, notes: seq<Note>, merged: seq<Note>, m: nat)
    requires m <= |notes| == |merged|
    requires forall i :: 0 <= i < |notes| ==> merged[i] == MergedAt(key, notes, |notes|, i)
    ensures var s := Survivors(key, notes, m);
            Filled(merged[..m]) == seq(|s|, k requires 0 <= k < |s| => Gathered(key, notes, s[k], |notes|))
  {
    if m > 0 {
      FilledBelow(key, notes, merged, m - 1);
      assert merged[..m][..m - 1] == merged[..m - 1];
      assert merged[..m][m - 1] == merged[m - 1];
      GatheredContent(key, notes, m - 1, |notes|);
    }
  }

  /** The three passes compute the promised compaction. */
  lemma PassesCompact(key: Note -> string, notes: seq<Note>)
    ensures Filled(MergePairs(notes, Dups(key, notes, |notes|))) == Compacted(key, notes)
  {
    var merged := MergedPairs(key, notes, |notes|);
    FilledBelow(key, notes, merged, |notes|);
    assert merged[..|notes|] == merged;
  }

  /** Pass one: every later note of a class is paired with the class's first. */
  method FindDuplicates(key: Note -> string, notes: seq<Note>) returns (duplicates: seq<Pair>)
    ensures duplicates == Dups(key, notes, |notes|)
  {
    var seen: map<string, nat> := map[];
    duplicates := [];
    for i := 0 to |notes|
      invariant duplicates == Dups(key, notes, i)
      invariant forall j :: 0 <= j < i ==> key(notes[j]) in seen
      invariant forall k :: k in seen ==>
                  seen[k] < i && key(notes[seen[k]]) == k && IsFirst(key, notes, seen[k])
    {
      var k := key(notes[i]);
      if k in seen {
        assert !IsFirst(key, notes, i);
        FirstsAgree(key, notes, seen[k], FirstIndex(key, notes, i));
        duplicates := duplicates + [Pair(seen[k], i)];
      } else {
        assert IsFirst(key, notes, i);
        seen := seen[k := i];
      }
    }
  }

  class MemoryStore {
    var notes: seq<Note>

    /** Pass two: merges every duplicate into its class's first and empties it. */
    method MergeDuplicates(duplicates: seq<Pair>)
      requires PairsBelow(duplicates, |notes|)
      modifies this
      ensures notes == MergePairs(old(notes), duplicates)
    {
      for d := 0 to |duplicates|
        invariant |notes| == |old(notes)|
        invariant notes == MergePairs(old(notes), duplicates[..d])
      {
        var keep, dup := duplicates[d].keep, duplicates[d].dup;
        var tags := MergeTags(notes[keep].tags, notes[dup].tags);
        var createdAt := if notes[dup].createdAt > notes[keep].createdAt
                         then notes[dup].createdAt else notes[keep].createdAt;
        notes := notes[keep := notes[keep].(tags := tags)];
        notes := notes[keep := notes[keep].(createdAt := createdAt)];
        notes := notes[dup := notes[dup].(content := "")];
        assert duplicates[..d + 1][..d] == duplicates[..d];
      }
      assert duplicates[..|duplicates|] == duplicates;
    }

    method Compact(lower: string -> string) returns (removed: nat)
      modifies this
      ensures notes == Compacted(ContentKey(lower), old(notes))
      ensures removed == |old(notes)| - |notes|
    {
      var key := ContentKey(lower);
      var duplicates := FindDuplicates(key, notes);
      MergeDuplicates(duplicates);
      var before := |notes|;
      notes := Filled(notes);
      PassesCompact(key, old(notes));
      SurvivorsShorter(key, old(notes), |old(notes)|);
      removed := before - |notes|;
    }
  }

  // ---------------------------------------------------------------- what compaction promises

  lemma {:induction false} SurvivorsShorter(key: Note -> string, notes: seq<Note>, m: nat)
    requires m <= |notes|
    ensures |Survivors(key, notes, m)| <= m
  {
    if m > 0 {
      SurvivorsShorter(key, notes, m - 1);
    }
  }

  predicate Increasing(s: seq<nat>) {
    forall j, k :: 0 <= j < k < |s| ==> s[j] < s[k]
  }

  lemma {:induction false} SurvivorsIncrease(key: Note -> string, notes: seq<Note>, m: nat)
    requires m <= |notes|
    ensures Increasing(Survivors(key, notes, m))
  {
    if m > 0 {
      SurvivorsIncrease(key, notes, m - 1);
    }
  }

  lemma {:induction false} Survives(key: Note -> string, notes: seq<Note>, m: nat, i: nat)
    requires i < m <= |notes|
    ensures i in Survivors(key, notes, m) <==> IsFirst(key, notes, i) && notes[i].content != ""
  {
    var s := Survivors(key, notes, m - 1);
    if i < m - 1 {
      Survives(key, notes, m - 1, i);
      assert i in Survivors(key, notes, m) <==> i in s;
    } else {
      assert i !in s;
    }
  }

  /** Survivors come in the original order and are exactly the first notes of
      their class that have some content. */
  lemma SurvivorsExactly(key: Note -> string, notes: seq<Note>, m: nat)
    requires m <= |notes|
    ensures Increasing(Survivors(key, notes, m))
    ensures forall i | 0 <= i < m ::
              i in Survivors(key, notes, m) <==> IsFirst(key, notes, i) && notes[i].content != ""
  {
    SurvivorsIncrease(key, notes, m);
    forall i | 0 <= i < m
      ensures i in Survivors(key, notes, m) <==> IsFirst(key, notes, i) && notes[i].content != ""
    {
      Survives(key, notes, m, i);
    }
  }

  predicate InClass(key: Note -> string, notes: seq<Note>, i: nat, m: nat, j: int)
    requires i < |notes| && m <= |notes|
  {
    i <= j < m && key(notes[j]) == key(notes[i])
  }

  /** The gathered date is the latest of the class. */
  lemma {:induction false} GatheredDate(key: Note -> string, notes: seq<Note>, i: nat, m: nat)
    requires i < m <= |notes|
    ensures forall j :: InClass(key, notes, i, m, j) ==>
              notes[j].createdAt <= Gathered(key, notes, i, m).createdAt
    ensures exists j :: InClass(key, notes, i, m, j)
                        && notes[j].createdAt == Gathered(key, notes, i, m).createdAt
    decreases m
  {
    if m == i + 1 {
      assert InClass(key, notes, i, m, i);
    } else {
      GatheredDate(key, notes, i, m - 1);
      var j :| InClass(key, notes, i, m - 1, j)
               && notes[j].createdAt == Gathered(key, notes, i, m - 1).createdAt;
      assert InClass(key, notes, i, m, j);
      assert key(notes[m - 1]) == key(notes[i]) ==> InClass(key, notes, i, m, m - 1);
      forall j | InClass(key, notes, i, m, j)
        ensures notes[j].createdAt <= Gathered(key, notes, i, m).createdAt
      {
        assert j == m - 1 || InClass(key, notes, i, m - 1, j);
      }
    }
  }

  ghost predicate TaggedInClass(key: Note -> string, notes: seq<Note>, i: nat, m: nat, t: string)
    requires i < |notes| && m <= |notes|
  {
    exists j :: InClass(key, notes, i, m, j) && t in notes[j].tags
  }

  /** The gathered tags are the union of the class's tags. */
  lemma {:induction false} GatheredTag(key: Note -> string, notes: seq<Note>, i: nat, m: nat, t: string)
    requires i < m <= |notes|
    ensures t in Gathered(key, notes, i, m).tags <==> TaggedInClass(key, notes, i, m, t)
    decreases m
  {
    if m == i + 1 {
      assert InClass(key, notes, i, m, i);
    } else {
      GatheredTag(key, notes, i, m - 1, t);
      TaggedStep(key, notes, i, m - 1, t);
      MergeTagsIsUnion(Gathered(key, notes, i, m - 1).tags, notes[m - 1].tags);
    }
  }

  lemma TaggedStep(key: Note -> string, notes: seq<Note>, i: nat, m: nat, t: string)
    requires i < m < |notes|
    ensures TaggedInClass(key, notes, i, m + 1, t) <==>
            TaggedInClass(key, notes, i, m, t)
            || (key(notes[m]) == key(notes[i]) && t in notes[m].tags)
  {
  }

  /** Merged tags end up sorted and without repetition. */
  lemma {:induction false} GatheredShape(key: Note -> string, notes: seq<Note>, i: nat, m: nat)
    requires i < m <= |notes|
    ensures Gathered(key, notes, i, m) == notes[i]
            || (&& Sorted(Gathered(key, notes, i, m).tags, StringLeq)
                && Distinct(Gathered(key, notes, i, m).tags))
    decreases m
  {
    if m > i + 1 {
      GatheredShape(key, notes, i, m - 1);
      MergeTagsIsUnion(Gathered(key, notes, i, m - 1).tags, notes[m - 1].tags);
    }
  }

  /** A note alone in its class is kept as it is. */
  lemma {:induction false} GatheredAlone(key: Note -> string, notes: seq<Note>, i: nat, m: nat)
    requires i < m <= |notes|
    requires forall j :: i < j < m ==> key(notes[j]) != key(notes[i])
    ensures Gathered(key, notes, i, m) == notes[i]
    decreases m
  {
    if m > i + 1 {
      GatheredAlone(key, notes, i, m - 1);
    }
  }

  predicate IsCompact(key: Note -> string, notes: seq<Note>) {
    forall i :: 0 <= i < |notes| ==> IsFirst(key, notes, i) && notes[i].content != ""
  }

  lemma CompactedIsCompact(key: Note -> string, notes: seq<Note>)
    requires ByContent(key)
    ensures IsCompact(key, Compacted(key, notes))
  {
    var s, c := Survivors(key, notes, |notes|), Compacted(key, notes);
    SurvivorsExactly(key, notes, |notes|);
    forall k | 0 <= k < |c| ensures IsFirst(key, c, k) && c[k].content != "" {
      SurvivorAt(key, notes, k);
      forall j | 0 <= j < k ensures key(c[j]) != key(c[k]) {
        SurvivorAt(key, notes, j);
        assert s[j] < s[k];
      }
    }
  }

  lemma SurvivorAt(key: Note -> string, notes: seq<Note>, k: nat)
    requires k < |Survivors(key, notes, |notes|)|
    ensures var i := Survivors(key, notes, |notes|)[k];
            && IsFirst(key, notes, i) && notes[i].content != ""
            && Compacted(key, notes)[k].content == notes[i].content
  {
    var s := Survivors(key, notes, |notes|);
    SurvivorsExactly(key, notes, |notes|);
    assert s[k] in s;
    GatheredContent(key, notes, s[k], |notes|);
  }

  lemma {:induction false} CompactSurvives(key: Note -> string, notes: seq<Note>, m: nat)
    requires IsCompact(key, notes) && m <= |notes|
    ensures |Survivors(key, notes, m)| == m
    ensures forall k :: 0 <= k < m ==> Survivors(key, notes, m)[k] == k
  {
    if m > 0 {
      CompactSurvives(key, notes, m - 1);
    }
  }

  lemma CompactUnchanged(key: Note -> string, notes: seq<Note>)
    requires IsCompact(key, notes)
    ensures Compacted(key, notes) == notes
  {
    CompactSurvives(key, notes, |notes|);
    forall i | 0 <= i < |notes| ensures Compacted(key, notes)[i] == notes[i] {
      assert forall j :: i < j < |notes| ==> IsFirst(key, notes, j);
      GatheredAlone(key, notes, i, |notes|);
    }
  }

  /** A second compaction changes nothing. */
  lemma CompactTwice(lower: string -> string, notes: seq<Note>)
    ensures Compacted(ContentKey(lower), Compacted(ContentKey(lower), notes)) == Compacted(ContentKey(lower), notes)
  {
    var key := ContentKey(lower);
    assert ByContent(key);
    CompactedIsCompact(key, notes);
    CompactUnchanged(key, Compacted(key, notes));
  }

  ghost predicate Represented(key: Note -> string, notes: seq<Note>, i: nat)
    requires i < |notes|
  {
    exists k :: 0 <= k < |Compacted(key, notes)| && key(Compacted(key, notes)[k]) == key(notes[i])
  }

  lemma FilledFirstRepresents(key: Note -> string, notes: seq<Note>, i: nat)
    requires i < |notes| && notes[FirstIndex(key, notes, i)].content != "" && ByContent(key)
    ensures Represented(key, notes, i)
  {
    var f := FirstIndex(key, notes, i);
    var s := Survivors(key, notes, |notes|);
    SurvivorsExactly(key, notes, |notes|);
    assert f in s;
    var k :| 0 <= k < |s| && s[k] == f;
    SurvivorAt(key, notes, k);
    assert key(Compacted(key, notes)[k]) == key(notes[i]);
  }

  lemma RepresentedByFirst(key: Note -> string, notes: seq<Note>, i: nat)
    requires i < |notes| && Represented(key, notes, i) && ByContent(key)
    ensures notes[FirstIndex(key, notes, i)].content != ""
  {
    var s, c := Survivors(key, notes, |notes|), Compacted(key, notes);
    var k :| 0 <= k < |c| && key(c[k]) == key(notes[i]);
    SurvivorAt(key, notes, k);
    FirstsAgree(key, notes, s[k], FirstIndex(key, notes, i));
  }

  /** Compaction keeps a note of every class exactly when no class is opened by
      a note with empty content. */
  lemma ClassesKeptExactly(lower: string -> string, notes: seq<Note>)
    ensures var key := ContentKey(lower);
            (forall i :: 0 <= i < |notes| ==> Represented(key, notes, i))
            <==> (forall i :: 0 <= i < |notes| && IsFirst(key, notes, i) ==> notes[i].content != "")
  {
    var key := ContentKey(lower);
    assert ByContent(key);
    if forall i :: 0 <= i < |notes| && IsFirst(key, notes, i) ==> notes[i].content != "" {
      forall i | 0 <= i < |notes| ensures Represented(key, notes, i) {
        FilledFirstRepresents(key, notes, i);
      }
    }
    if forall i :: 0 <= i < |notes| ==> Represented(key, notes, i) {
      forall i | 0 <= i < |notes| && IsFirst(key, notes, i) ensures notes[i].content != "" {
        RepresentedByFirst(key, notes, i);
        FirstsAgree(key, notes, i, FirstIndex(key, notes, i));
      }
    }
  }

  /** An empty note swallows a blank one, and both disappear. */
  lemma EmptyFirstLosesClass(lower: string -> string, a: Note, b: Note)
    requires a.content == "" && b.content == " "
    ensures Compacted(ContentKey(lower), [a, b]) == []
  {
    var key := ContentKey(lower);
    var notes := [a, b];
    assert Trim("") == "" && Trim(" ") == "";
    assert key(notes[0]) == key(notes[1]);
    assert !IsFirst(key, notes, 1);
    assert Survivors(key, notes, 1) == [];
  }

  // ---------------------------------------------------------------- by the contents alone

  /** Two notes say the same, up to case and surrounding white space. */
  predicate SameContent(lower: string -> string, a: Note, b: Note) {
    lower(Trim(a.content)) == lower(Trim(b.content))
  }

  /** Compaction keeps a note exactly when it has content and no earlier note says the same. It
      keeps its id, content and count, gets the latest date of the notes that say the same, and
      the tags of all of them. */
  lemma CompactExactly(lower: string -> string, notes: seq<Note>, i: nat, t: string)
    requires i < |notes|
    ensures i in Survivors(ContentKey(lower), notes, |notes|) <==>
              notes[i].content != "" && forall j :: 0 <= j < i ==> !SameContent(lower, notes[j], notes[i])
    ensures var g := Gathered(ContentKey(lower), notes, i, |notes|);
            && g.id == notes[i].id && g.content == notes[i].content && g.accessCount == notes[i].accessCount
            && (t in g.tags <==> exists j :: i <= j < |notes| && SameContent(lower, notes[j], notes[i]) && t in notes[j].tags)
            && (forall j :: i <= j < |notes| && SameContent(lower, notes[j], notes[i]) ==> notes[j].createdAt <= g.createdAt)
            && (exists j :: i <= j < |notes| && SameContent(lower, notes[j], notes[i]) && notes[j].createdAt == g.createdAt)
  {
    var key := ContentKey(lower);
    forall j | 0 <= j < |notes| ensures key(notes[j]) == key(notes[i]) <==> SameContent(lower, notes[j], notes[i]) {
    }
    SurvivorsExactly(key, notes, |notes|);
    GatheredContent(key, notes, i, |notes|);
    GatheredTag(key, notes, i, |notes|, t);
    GatheredDate(key, notes, i, |notes|);
    InClassMeans(lower, notes, i);
  }

  lemma InClassMeans(lower: string -> string, notes: seq<Note>, i: nat)
    requires i < |notes|
    ensures forall j :: InClass(ContentKey(lower), notes, i, |notes|, j)
                        <==> i <= j < |notes| && SameContent(lower, notes[j], notes[i])
  {
  }
}
