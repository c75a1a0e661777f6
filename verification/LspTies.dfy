/** Arrays in which replacements follow insertions at their own starts.

    The protocol lets such an array mean: the insertions in array order, then the
    replacement of the original range. The loop looks the end of the range up in a text
    that already holds the insertions. */
module LspTies {
  import opened Text
  import opened Sorting
  import opened Splice
  import opened LspEdits

  // ---------------------------------------------------------------- lengths

  /** How many of the offsets below `h` lie in the range of `e`. */
  function Within(e: Edit, h: nat): nat {
    if h <= e.lo then 0 else if h <= e.hi then h - e.lo else if e.lo <= e.hi then e.hi - e.lo else 0
  }

  predicate Untouched(es: seq<Edit>, e: Edit) {
    forall i :: e.lo <= i < e.hi ==> !Covered(es, i)
  }

  lemma EmittedSnoc(text: string, es: seq<Edit>, k: nat, h: nat)
    requires h == k + 1 <= |text|
    ensures Emitted(text, es, h) == Emitted(text, es, k) + At(text, es, k)
  {
  }

  lemma AtLength(text: string, es: seq<Edit>, e: Edit, i: nat)
    requires i < |text| && Untouched(es, e)
    ensures |At(text, es + [e], i)|
            == |At(text, es, i)| + (if e.lo == i then |e.text| else 0) - (if e.lo <= i < e.hi then 1 else 0)
  {
    InsertedSnoc(es, e, i);
    CoveredSnoc(es, e, i);
  }

  lemma {:induction false} EmittedLength(text: string, es: seq<Edit>, e: Edit, h: nat)
    requires h <= |text| && Untouched(es, e) && e.lo <= e.hi
    ensures |Emitted(text, es + [e], h)|
            == |Emitted(text, es, h)| + (if e.lo < h then |e.text| else 0) - Within(e, h)
  {
    if h > 0 {
      var i := h - 1;
      EmittedSnoc(text, es, i, h);
      EmittedSnoc(text, es + [e], i, h);
      EmittedLength(text, es, e, i);
      AtLength(text, es, e, i);
    }
  }

  lemma LastUntouched(es: seq<Edit>, e: Edit)
    requires Disjoint(es + [e])
    ensures Untouched(es, e) && Disjoint(es) && e.lo <= e.hi
  {
    var all := es + [e];
    forall f | f in es ensures f.hi <= e.lo || e.hi <= f.lo {
      var k :| 0 <= k < |es| && es[k] == f;
      assert all[k] == f && all[|es|] == e;
    }
    forall i, j | 0 <= i < j < |es| ensures es[i].hi <= es[j].lo || es[j].hi <= es[i].lo {
      assert all[i] == es[i] && all[j] == es[j];
    }
    forall i | 0 <= i < |es| ensures es[i].lo <= es[i].hi {
      assert all[i] == es[i];
    }
    assert all[|es|] == e;
  }

  lemma SimultaneousSnoc(text: string, es: seq<Edit>, e: Edit)
    requires Untouched(es, e) && e.lo <= e.hi <= |text|
    ensures |Simultaneous(text, es + [e])| == |Simultaneous(text, es)| + |e.text| - (e.hi - e.lo)
  {
    EmittedLength(text, es, e, |text|);
    InsertedSnoc(es, e, |text|);
  }

  // ---------------------------------------------------------------- the sorted array

  predicate ApartFrom(r: Edit, rs: seq<Edit>) {
    forall f :: f in rs ==> r.hi <= f.lo || f.hi <= r.lo
  }

  lemma DisjointHead(r: Edit, rs: seq<Edit>, all: seq<Edit>)
    requires all == [r] + rs && Disjoint(all)
    ensures r.lo <= r.hi && ApartFrom(r, rs) && Disjoint(rs)
  {
    assert all[0] == r && forall k :: 0 <= k < |rs| ==> rs[k] == all[k + 1];
    forall f | f in rs ensures r.hi <= f.lo || f.hi <= r.lo {
      var k :| 0 <= k < |rs| && rs[k] == f;
      assert all[0] == r && all[k + 1] == f;
    }
    forall i, j | 0 <= i < j < |rs| ensures rs[i].hi <= rs[j].lo || rs[j].hi <= rs[i].lo {
      assert rs[i] == all[i + 1] && rs[j] == all[j + 1];
    }
  }

  lemma DisjointCons(r: Edit, rs: seq<Edit>, all: seq<Edit>)
    requires all == [r] + rs && r.lo <= r.hi && ApartFrom(r, rs) && Disjoint(rs)
    ensures Disjoint(all)
  {
    assert forall k :: 0 < k < |all| ==> all[k] == rs[k - 1];
    forall i, j | 0 <= i < j < |all| ensures all[i].hi <= all[j].lo || all[j].hi <= all[i].lo {
      assert all[j] == rs[j - 1] && all[j] in rs;
      assert i > 0 ==> all[i] == rs[i - 1];
    }
  }

  lemma {:induction false} InsertDisjoint(r: Edit, rs: seq<Edit>)
    requires r.lo <= r.hi && ApartFrom(r, rs) && Disjoint(rs)
    ensures Disjoint(Insert(r, rs, NotBelow))
  {
    if rs == [] || NotBelow(r, rs[0]) {
      assert rs == [] ==> [r] == [r] + rs;
      DisjointCons(r, rs, [r] + rs);
    } else {
      var first, rest := rs[0], rs[1..];
      DisjointHead(first, rest, rs);
      InsertDisjoint(r, rest);
      InsertKeepsElements(r, rest, NotBelow);
      var t := Insert(r, rest, NotBelow);
      DisjointCons(first, t, [first] + t);
    }
  }

  lemma {:induction false} SortDisjoint(rs: seq<Edit>)
    requires Disjoint(rs)
    ensures Disjoint(Sort(rs, NotBelow))
  {
    if rs != [] {
      DisjointHead(rs[0], rs[1..], rs);
      SortDisjoint(rs[1..]);
      SortKeepsElements(rs[1..], NotBelow);
      InsertDisjoint(rs[0], Sort(rs[1..], NotBelow));
    }
  }

  lemma {:induction false} InsertedStarting(rs: seq<Edit>, i: nat)
    ensures Inserted(rs, i) == Inserted(Filter(rs, StartsAt(i)), i)
  {
    if rs != [] {
      InsertedStarting(rs[1..], i);
      assert rs == [rs[0]] + rs[1..];
      InsertedCons(rs[0], rs[1..], i);
      var f := Filter(rs[1..], StartsAt(i));
      InsertedCons(rs[0], f, i);
      FilterCons(rs[0], rs[1..], StartsAt(i));
      assert Filter(rs, StartsAt(i)) == if rs[0].lo == i then [rs[0]] + f else f;
    }
  }

  /** The stable sort keeps the meaning of the array. */
  lemma SortKeepsMeaning(text: string, rs: seq<Edit>)
    ensures Simultaneous(text, Sort(rs, NotBelow)) == Simultaneous(text, rs)
  {
    var s := Sort(rs, NotBelow);
    SortKeepsElements(rs, NotBelow);
    forall i: nat ensures Inserted(s, i) == Inserted(rs, i) {
      SortStable(rs, NotBelow, StartsAt(i));
      InsertedStarting(rs, i);
      InsertedStarting(s, i);
    }
    forall i | 0 <= i < |text| ensures At(text, s, i) == At(text, rs, i) {
    }
    EmittedAgrees(text, s, rs, |text|);
  }

  /** The ranges in the order of the loop. */
  function LoopRanges(text: string, es: seq<TextEdit>): seq<Edit>
    requires Resolvable(text, es)
  {
    Sort(Ranges(text, es), NotBelow)
  }

  lemma {:induction false} InOrderConcat(text: string, a: seq<TextEdit>, b: seq<TextEdit>)
    ensures ApplyInOrder(text, a + b)
            == match ApplyInOrder(text, a)
               case Ok(t) => ApplyInOrder(t, b)
               case Err(e) => Err(e)
    decreases |a|
  {
    if a == [] {
      assert a + b == b;
    } else {
      assert (a + b)[1..] == a[1..] + b;
      if ApplyOne(text, a[0]).Ok? {
        InOrderConcat(ApplyOne(text, a[0]).value, a[1..], b);
      }
    }
  }

  lemma NotBelowIsPreorder()
    ensures TotalPreorder(NotBelow)
  {
  }

  // ---------------------------------------------------------------- what the loop does

  /** One edit on a text that has changed from its start on: its end is looked up there, and
      may be missing or elsewhere. */
  lemma ReplaceStep(text: string, now: string, z: TextEdit, r: Edit)
    requires Denotes(text, z, r) && r.lo <= |now| && now[..r.lo] == text[..r.lo]
    ensures match Resolve(now, z.end)
            case None => ApplyOne(now, z) == Err(PositionOutOfRange)
            case Some(h) => ApplyOne(now, z) == if h < r.lo then Err(ReplacePanics) else Ok(text[..r.lo] + r.text + now[h..])
  {
    ResolveInverse(now, z.start, r.lo);
    var end := Resolve(now, z.end);
    if end.Some? {
      if end.value < r.lo {
        ByteAtMonotone(now, end.value, r.lo);
      } else {
        ReplaceRangeAt(now, r.lo, end.value, r.text);
      }
    }
  }

  /** An end is found below the start exactly if the range was reversed in the original text. */
  lemma EndAbove(text: string, now: string, z: TextEdit, r: Edit)
    requires Denotes(text, z, r) && r.lo <= |now| && now[..r.lo] == text[..r.lo]
    ensures r.hi < r.lo <==> Resolve(now, z.end).Some? && Resolve(now, z.end).value < r.lo
  {
    var end := Resolve(now, z.end);
    if r.hi < r.lo {
      Shorten(text, now, r.hi, r.lo);
      ResolveInverse(now, z.end, r.hi);
    } else if end.Some? && end.value < r.lo {
      Shorten(text, now, end.value, r.lo);
      PosAtMonotone(text, end.value, r.hi);
    }
  }

  /** The loop, with every start taken from the original text: what stands below the start of
      an edit is original, and what stands behind the place where its end is found remains. */
  function Replay(text: string, now: string, es: seq<TextEdit>, rs: seq<Edit>): Result<string, EditError>
    requires |es| == |rs| && Sorted(rs, NotBelow) && (rs != [] ==> rs[0].lo <= |text|)
    decreases |es|
  {
    if es == [] then Ok(now) else
      var r := rs[0];
      if r.hi < r.lo then Err(ReplacePanics) else
        match Resolve(now, es[0].end)
        case None => Err(PositionOutOfRange)
        case Some(h) => Replay(text, text[..r.lo] + r.text + now[h..], es[1..], rs[1..])
  }

  lemma {:induction false} InOrderIsReplay(text: string, now: string, es: seq<TextEdit>, rs: seq<Edit>)
    requires DenoteAll(text, es, rs) && Sorted(rs, NotBelow)
    requires rs != [] ==> rs[0].lo <= |now| && now[..rs[0].lo] == text[..rs[0].lo]
    ensures ApplyInOrder(now, es) == Replay(text, now, es, rs)
    decreases |es|
  {
    if es != [] {
      var z, r := es[0], rs[0];
      ReplaceStep(text, now, z, r);
      EndAbove(text, now, z, r);
      var end := Resolve(now, z.end);
      if end.Some? && r.lo <= end.value {
        var next := text[..r.lo] + r.text + now[end.value..];
        assert next[..r.lo] == text[..r.lo];
        if |rs| > 1 {
          assert NotBelow(rs[0], rs[1]);
          Shorten(next, text, rs[1].lo, r.lo);
        }
        InOrderIsReplay(text, next, es[1..], rs[1..]);
      }
    }
  }

  lemma LoopOrder(text: string, es: seq<TextEdit>)
    requires Resolvable(text, es)
    ensures DenoteAll(text, Sort(es, NotBefore), LoopRanges(text, es)) && Sorted(LoopRanges(text, es), NotBelow)
  {
    SortDenotes(text, es, Ranges(text, es));
    NotBelowIsPreorder();
    SortSorts(Ranges(text, es), NotBelow);
  }

  /** What the loop does with any array whose positions are in the text, whether its ranges are
      reversed, overlap or share their starts. */
  lemma LoopOutcome(text: string, es: seq<TextEdit>)
    requires Resolvable(text, es)
    ensures var rs := LoopRanges(text, es);
            && |Sort(es, NotBefore)| == |rs| && Sorted(rs, NotBelow) && (rs != [] ==> rs[0].lo <= |text|)
            && Apply(text, es) == Replay(text, text, Sort(es, NotBefore), rs)
  {
    LoopOrder(text, es);
    InOrderIsReplay(text, text, Sort(es, NotBefore), LoopRanges(text, es));
  }

  // ---------------------------------------------------------------- as long as ends stay

  predicate Fitting(rs: seq<Edit>, h: nat) {
    forall k :: 0 <= k < |rs| ==> rs[k].lo <= rs[k].hi <= h
  }

  /** What the loop puts at offset `i` as long as ends stay: the latest edit first, and an edit
      takes the length of its range from what stood there before. */
  function PutsAt(text: string, rs: seq<Edit>, i: nat): string
    requires Fitting(rs, |text|)
  {
    if rs == [] then "" else
      var e, before := rs[|rs| - 1], PutsAt(text, rs[..|rs| - 1], i);
      if e.lo != i then before else e.text + (before + text[e.lo..e.hi])[e.hi - e.lo..]
  }

  /** Behind what the edits in front put at its start, the end of `e` stands at its old offset. */
  predicate Stays(text: string, front: seq<Edit>, e: Edit)
    requires Fitting(front, |text|) && e.lo <= e.hi <= |text|
  {
    Walk(PosAt(text, e.lo), (PutsAt(text, front, e.lo) + text[e.lo..e.hi])[..e.hi - e.lo]) == PosAt(text, e.hi)
  }

  predicate AllStay(text: string, rs: seq<Edit>)
    requires Fitting(rs, |text|)
  {
    forall k :: 0 <= k < |rs| ==> Stays(text, rs[..k], rs[k])
  }

  /** From `h` on, what the loop puts at an offset is what the protocol asks for there. */
  predicate ReadsFrom(text: string, rs: seq<Edit>, h: nat)
    requires Fitting(rs, |text|)
  {
    forall i :: h <= i <= |text| ==> PutsAt(text, rs, i) == Inserted(rs, i)
  }

  predicate Reads(text: string, rs: seq<Edit>)
    requires Fitting(rs, |text|)
  {
    ReadsFrom(text, rs, 0)
  }

  lemma ReadsOn(text: string, rs: seq<Edit>, h: nat, k: nat)
    requires Fitting(rs, |text|) && k == h + 1 <= |text|
    ensures ReadsFrom(text, rs, h) <==> PutsAt(text, rs, h) == Inserted(rs, h) && ReadsFrom(text, rs, k)
  {
  }

  /** No two ends move. */
  predicate OneMoves(text: string, rs: seq<Edit>)
    requires Fitting(rs, |text|)
  {
    forall j, k :: 0 <= j < k < |rs| ==> Stays(text, rs[..j], rs[j]) || Stays(text, rs[..k], rs[k])
  }

  lemma StaysAs(text: string, ins: seq<Edit>, r: Edit, z: TextEdit, before: string)
    requires Fitting(ins, |text|) && r.lo <= r.hi && Denotes(text, z, r) && PutsAt(text, ins, r.lo) == before
    ensures Stays(text, ins, r) <==> Walk(z.start, (before + text[r.lo..r.hi])[..r.hi - r.lo]) == z.end
  {
  }

  lemma PutsAtSnoc(text: string, rs: seq<Edit>, e: Edit, i: nat)
    requires Fitting(rs, |text|) && e.lo <= e.hi <= |text|
    ensures Fitting(rs + [e], |text|)
    ensures PutsAt(text, rs + [e], i)
            == if e.lo != i then PutsAt(text, rs, i) else e.text + (PutsAt(text, rs, i) + text[e.lo..e.hi])[e.hi - e.lo..]
  {
    assert (rs + [e])[..|rs|] == rs;
  }

  lemma PutsAtInsertion(text: string, rs: seq<Edit>, e: Edit, i: nat)
    requires Fitting(rs, |text|) && e.lo == e.hi <= |text|
    ensures Fitting(rs + [e], |text|)
    ensures PutsAt(text, rs + [e], i) == (if e.lo == i then e.text else "") + PutsAt(text, rs, i)
  {
    PutsAtSnoc(text, rs, e, i);
    var before := PutsAt(text, rs, i);
    assert before + text[e.lo..e.hi] == before && before[0..] == before;
  }

  lemma AllStaySnoc(text: string, rs: seq<Edit>, e: Edit)
    requires Fitting(rs, |text|) && e.lo <= e.hi <= |text|
    ensures Fitting(rs + [e], |text|)
    ensures AllStay(text, rs + [e]) <==> AllStay(text, rs) && Stays(text, rs, e)
  {
    var all := rs + [e];
    assert all[..|rs|] == rs && all[|rs|] == e;
    forall k | 0 <= k < |rs| ensures all[..k] == rs[..k] && all[k] == rs[k] {
    }
  }

  lemma OneMovesSnoc(text: string, rs: seq<Edit>, e: Edit)
    requires Fitting(rs + [e], |text|) && OneMoves(text, rs + [e])
    ensures Fitting(rs, |text|) && e.lo <= e.hi <= |text|
    ensures OneMoves(text, rs) && (AllStay(text, rs) || Stays(text, rs, e))
  {
    var all := rs + [e];
    assert all[..|rs|] == rs && all[|rs|] == e;
    forall k | 0 <= k < |rs| ensures all[..k] == rs[..k] && all[k] == rs[k] && rs[k].lo <= rs[k].hi <= |text| {
    }
  }

  function TextAt(e: Edit, i: nat): string {
    if e.lo == i then e.text else ""
  }

  lemma PutsAtOneMore(text: string, before: seq<Edit>, e: Edit, i: nat, left: string, base: string)
    requires Fitting(before, |text|) && e.lo <= e.hi <= |text| && (e.lo == i ==> e.hi == i)
    requires PutsAt(text, before, i) == left + base
    ensures Fitting(before + [e], |text|)
    ensures PutsAt(text, before + [e], i) == (TextAt(e, i) + left) + base
  {
    if e.lo == i {
      PutsAtInsertion(text, before, e, i);
      Assoc(e.text, left, base);
    } else {
      PutsAtSnoc(text, before, e, i);
      assert "" + left == left;
    }
  }

  lemma ReversedSnoc(es: seq<Edit>, e: Edit, i: nat)
    ensures Inserted(Reverse(es + [e]), i) == TextAt(e, i) + Inserted(Reverse(es), i)
  {
    assert Reverse(es + [e]) == [e] + Reverse(es);
    InsertedCons(e, Reverse(es), i);
  }

  lemma PutsAtBehindStep(text: string, rs: seq<Edit>, front: seq<Edit>, e: Edit, ins: seq<Edit>, i: nat)
    requires Fitting(rs, |text|) && Fitting(rs + front, |text|) && ins == front + [e]
    requires e.lo <= e.hi <= |text| && (e.lo == i ==> e.hi == i)
    requires PutsAt(text, rs + front, i) == Inserted(Reverse(front), i) + PutsAt(text, rs, i)
    ensures Fitting(rs + ins, |text|)
    ensures PutsAt(text, rs + ins, i) == Inserted(Reverse(ins), i) + PutsAt(text, rs, i)
  {
    PutsAtOneMore(text, rs + front, e, i, Inserted(Reverse(front), i), PutsAt(text, rs, i));
    ReversedSnoc(front, e, i);
    assert rs + ins == rs + front + [e];
  }

  /** Insertions come out in front of what stood there, in reverse order. */
  lemma {:induction false} PutsAtBehind(text: string, rs: seq<Edit>, ins: seq<Edit>, i: nat)
    requires Fitting(rs, |text|) && Fitting(ins, |text|)
    requires forall e :: e in ins && e.lo == i ==> e.hi == i
    ensures Fitting(rs + ins, |text|)
    ensures PutsAt(text, rs + ins, i) == Inserted(Reverse(ins), i) + PutsAt(text, rs, i)
  {
    if ins == [] {
      assert rs + ins == rs;
    } else {
      var n := |ins| - 1;
      PutsAtBehind(text, rs, ins[..n], i);
      PutsAtBehindStep(text, rs, ins[..n], ins[n], ins, i);
    }
  }

  lemma PutsAtInsertions(text: string, ins: seq<Edit>, i: nat)
    requires Fitting(ins, |text|)
    requires forall e :: e in ins && e.lo == i ==> e.hi == i
    ensures PutsAt(text, ins, i) == Inserted(Reverse(ins), i)
  {
    PutsAtBehind(text, [], ins, i);
    assert [] + ins == ins;
  }

  /** At the start of a replacement: the later insertions, the replacement, and what it leaves
      of the earlier insertions and its own range. */
  lemma PutsAtReplacement(text: string, front: seq<Edit>, r: Edit, back: seq<Edit>)
    requires Fitting(front, |text|) && Fitting(back, |text|) && r.lo <= r.hi <= |text|
    requires forall e :: e in front && e.lo == r.lo ==> e.hi == r.lo
    requires forall e :: e in back && e.lo == r.lo ==> e.hi == r.lo
    ensures Fitting(front + [r] + back, |text|)
    ensures PutsAt(text, front + [r] + back, r.lo)
            == Inserted(Reverse(back), r.lo) + (r.text + (Inserted(Reverse(front), r.lo) + text[r.lo..r.hi])[r.hi - r.lo..])
  {
    PutsAtInsertions(text, front, r.lo);
    PutsAtSnoc(text, front, r, r.lo);
    PutsAtBehind(text, front + [r], back, r.lo);
  }

  // ---------------------------------------------------------------- offset by offset

  function GivenAt(text: string, rs: seq<Edit>, i: nat): string
    requires Fitting(rs, |text|) && i < |text|
  {
    PutsAt(text, rs, i) + (if Covered(rs, i) then "" else [text[i]])
  }

  /** What the offsets from `h` on contribute to the result of the loop. */
  function Given(text: string, rs: seq<Edit>, h: nat): string
    requires Fitting(rs, |text|) && h <= |text|
    decreases |text| - h
  {
    if h == |text| then PutsAt(text, rs, h) else GivenAt(text, rs, h) + Given(text, rs, h + 1)
  }

  /** What the offsets from `h` on contribute to the simultaneous edit. */
  function Onward(text: string, es: seq<Edit>, h: nat): string
    requires h <= |text|
    decreases |text| - h
  {
    if h == |text| then Inserted(es, h) else At(text, es, h) + Onward(text, es, h + 1)
  }

  lemma {:induction false} SplitAt(text: string, es: seq<Edit>, h: nat)
    requires h <= |text|
    ensures Simultaneous(text, es) == Emitted(text, es, h) + Onward(text, es, h)
    decreases |text| - h
  {
    if h < |text| {
      var k := h + 1;
      SplitAt(text, es, k);
      Assoc(Emitted(text, es, h), At(text, es, h), Onward(text, es, k));
    }
  }

  lemma {:induction false} PutsNothing(text: string, rs: seq<Edit>, i: nat)
    requires Fitting(rs, |text|) && forall e :: e in rs ==> e.lo != i
    ensures PutsAt(text, rs, i) == ""
  {
    if rs != [] {
      PutsNothing(text, rs[..|rs| - 1], i);
    }
  }

  lemma {:induction false} PutsLength(text: string, rs: seq<Edit>, i: nat)
    requires Fitting(rs, |text|)
    ensures |PutsAt(text, rs, i)| == |Inserted(rs, i)|
  {
    if rs != [] {
      PutsLength(text, rs[..|rs| - 1], i);
    }
  }

  lemma {:induction false} GivenAgrees(text: string, rs: seq<Edit>, ss: seq<Edit>, h: nat)
    requires Fitting(rs, |text|) && Fitting(ss, |text|) && h <= |text|
    requires forall i: nat :: h <= i ==> PutsAt(text, rs, i) == PutsAt(text, ss, i) && (Covered(rs, i) <==> Covered(ss, i))
    ensures Given(text, rs, h) == Given(text, ss, h)
    decreases |text| - h
  {
    if h < |text| {
      GivenAgrees(text, rs, ss, h + 1);
    }
  }

  lemma GivenOpen(text: string, rs: seq<Edit>, i: nat, next: nat)
    requires Fitting(rs, |text|) && next == i + 1 <= |text|
    ensures !Covered(rs, i) ==> Given(text, rs, i) == PutsAt(text, rs, i) + [text[i]] + Given(text, rs, next)
    ensures Covered(rs, i) ==> Given(text, rs, i) == PutsAt(text, rs, i) + Given(text, rs, next)
  {
    if Covered(rs, i) {
      assert PutsAt(text, rs, i) + "" == PutsAt(text, rs, i);
    }
  }

  /** Where no range begins or reaches, the text is kept. */
  lemma {:induction false} GivenKept(text: string, rs: seq<Edit>, a: nat, b: nat)
    requires Fitting(rs, |text|) && a <= b <= |text|
    requires forall i: nat :: a <= i < b ==> PutsAt(text, rs, i) == "" && !Covered(rs, i)
    ensures Given(text, rs, a) == text[a..b] + Given(text, rs, b)
    decreases b - a
  {
    if a < b {
      var k := a + 1;
      GivenKept(text, rs, k, b);
      assert GivenAt(text, rs, a) == [text[a]];
      assert text[a..b] == [text[a]] + text[k..b];
      Assoc([text[a]], text[k..b], Given(text, rs, b));
    }
  }

  lemma {:induction false} GivenSkipped(text: string, rs: seq<Edit>, a: nat, b: nat)
    requires Fitting(rs, |text|) && a <= b <= |text|
    requires forall i: nat :: a <= i < b ==> PutsAt(text, rs, i) == "" && Covered(rs, i)
    ensures Given(text, rs, a) == Given(text, rs, b)
    decreases b - a
  {
    if a < b {
      var k := a + 1;
      GivenSkipped(text, rs, k, b);
      GivenOpen(text, rs, a, k);
      assert "" + Given(text, rs, k) == Given(text, rs, k);
    }
  }

  lemma GivenAtApart(text: string, rs: seq<Edit>, i: nat)
    requires Fitting(rs, |text|) && i < |text|
    ensures |GivenAt(text, rs, i)| == |At(text, rs, i)|
    ensures GivenAt(text, rs, i) == At(text, rs, i) <==> PutsAt(text, rs, i) == Inserted(rs, i)
  {
    PutsLength(text, rs, i);
    var kept := if Covered(rs, i) then "" else [text[i]];
    SplitEqual(PutsAt(text, rs, i), kept, Inserted(rs, i), kept);
  }

  lemma GivenApartStep(text: string, rs: seq<Edit>, h: nat, k: nat)
    requires Fitting(rs, |text|) && k == h + 1 <= |text| && |Given(text, rs, k)| == |Onward(text, rs, k)|
    ensures |Given(text, rs, h)| == |Onward(text, rs, h)|
    ensures Given(text, rs, h) == Onward(text, rs, h)
            <==> PutsAt(text, rs, h) == Inserted(rs, h) && Given(text, rs, k) == Onward(text, rs, k)
  {
    GivenAtApart(text, rs, h);
    SplitEqual(GivenAt(text, rs, h), Given(text, rs, k), At(text, rs, h), Onward(text, rs, k));
  }

  /** The result and the wanted text differ as soon as they differ at one offset. */
  lemma {:induction false} GivenApart(text: string, rs: seq<Edit>, h: nat)
    requires Fitting(rs, |text|) && h <= |text|
    ensures |Given(text, rs, h)| == |Onward(text, rs, h)|
    ensures Given(text, rs, h) == Onward(text, rs, h) <==> ReadsFrom(text, rs, h)
    decreases |text| - h
  {
    if h == |text| {
      PutsLength(text, rs, h);
    } else {
      var k := h + 1;
      GivenApart(text, rs, k);
      GivenApartStep(text, rs, h, k);
      ReadsOn(text, rs, h, k);
    }
  }

  /** The text ahead, cut at the old end of the range. */
  lemma AheadCut(text: string, lo: nat, hi: nat, standing: string, rest: string, now: string)
    requires lo <= hi <= |text| && hi <= lo + |standing| && now == text[..lo] + standing + rest
    ensures hi <= |now| && now[hi..] == standing[hi - lo..] + rest
    ensures PosAt(now, hi) == Walk(PosAt(text, lo), standing[..hi - lo])
  {
    CutThrough(text[..lo], standing, rest, lo, hi, now);
    WalkConcat(Position(0, 0), text[..lo], standing[..hi - lo]);
  }

  lemma CutThrough(a: string, b: string, c: string, lo: nat, hi: nat, all: string)
    requires all == a + b + c && |a| == lo <= hi <= lo + |b|
    ensures all[..hi] == a + b[..hi - lo] && all[hi..] == b[hi - lo..] + c
  {
  }

  // ---------------------------------------------------------------- one more edit

  /** `e` comes behind the edits in front in the order of the loop. */
  predicate Lower(front: seq<Edit>, e: Edit) {
    forall f :: f in front ==> f.lo <= f.hi && e.lo <= f.lo && (f.lo == f.hi == e.lo || e.hi <= f.lo)
  }

  lemma AfterInsertion(text: string, front: seq<Edit>, e: Edit, all: seq<Edit>, i: nat)
    requires Fitting(front, |text|) && e.lo == e.hi <= |text| && all == front + [e]
    ensures Fitting(all, |text|)
    ensures PutsAt(text, all, i) == (if e.lo == i then e.text else "") + PutsAt(text, front, i)
    ensures Covered(all, i) <==> Covered(front, i)
  {
    PutsAtInsertion(text, front, e, i);
    CoveredSnoc(front, e, i);
  }

  lemma GivenInsertion(text: string, front: seq<Edit>, e: Edit, all: seq<Edit>)
    requires Fitting(front, |text|) && e.lo == e.hi <= |text| && all == front + [e]
    ensures Fitting(all, |text|) && Given(text, all, e.lo) == e.text + Given(text, front, e.lo)
  {
    var lo := e.lo;
    AfterInsertion(text, front, e, all, lo);
    if lo < |text| {
      var next := lo + 1;
      forall i: nat | next <= i
        ensures PutsAt(text, all, i) == PutsAt(text, front, i) && (Covered(all, i) <==> Covered(front, i))
      {
        AfterInsertion(text, front, e, all, i);
      }
      GivenAgrees(text, all, front, next);
      StartParts(e.text, PutsAt(text, front, lo), if Covered(front, lo) then "" else [text[lo]], Given(text, front, next));
    }
  }

  lemma StartParts(a: string, b: string, c: string, d: string)
    ensures ((a + b) + c) + d == a + ((b + c) + d)
  {
  }

  lemma ClearBelow(text: string, front: seq<Edit>, e: Edit, i: nat)
    requires Fitting(front, |text|) && Lower(front, e) && i < e.hi && e.lo < e.hi
    ensures !Covered(front, i) && (i != e.lo ==> PutsAt(text, front, i) == "")
  {
    if i != e.lo {
      PutsNothing(text, front, i);
    }
  }

  lemma GivenBehind(text: string, front: seq<Edit>, e: Edit, next: nat)
    requires Fitting(front, |text|) && Lower(front, e) && e.lo < e.hi <= |text| && next == e.lo + 1
    ensures Given(text, front, next) == text[next..e.hi] + Given(text, front, e.hi)
  {
    forall i: nat | next <= i < e.hi ensures PutsAt(text, front, i) == "" && !Covered(front, i) {
      ClearBelow(text, front, e, i);
    }
    GivenKept(text, front, next, e.hi);
  }

  /** What stands from the start of the range on before the replacement. */
  lemma GivenAhead(text: string, front: seq<Edit>, e: Edit)
    requires Fitting(front, |text|) && Lower(front, e) && e.lo < e.hi <= |text|
    ensures Given(text, front, e.lo) == PutsAt(text, front, e.lo) + text[e.lo..e.hi] + Given(text, front, e.hi)
  {
    var next := e.lo + 1;
    ClearBelow(text, front, e, e.lo);
    GivenOpen(text, front, e.lo, next);
    GivenBehind(text, front, e, next);
    FourParts(PutsAt(text, front, e.lo), [text[e.lo]], text[next..e.hi], Given(text, front, e.hi));
    FirstOf(text, e.lo, next, e.hi);
  }

  lemma FirstOf(text: string, a: nat, k: nat, b: nat)
    requires k == a + 1 <= b <= |text|
    ensures text[a..b] == [text[a]] + text[k..b]
  {
  }

  lemma FourParts(a: string, b: string, c: string, d: string)
    ensures a + b + (c + d) == a + (b + c) + d
  {
  }

  lemma AfterReplacement(text: string, front: seq<Edit>, e: Edit, all: seq<Edit>, i: nat)
    requires Fitting(front, |text|) && Lower(front, e) && e.lo < e.hi <= |text| && all == front + [e]
    ensures Fitting(all, |text|)
    ensures e.lo <= i < e.hi ==> Covered(all, i)
    ensures e.lo < i < e.hi ==> PutsAt(text, all, i) == ""
    ensures e.hi <= i ==> PutsAt(text, all, i) == PutsAt(text, front, i) && (Covered(all, i) <==> Covered(front, i))
  {
    CoveredSnoc(front, e, i);
    PutsAtSnoc(text, front, e, i);
    if e.lo < i < e.hi {
      ClearBelow(text, front, e, i);
    }
  }

  lemma GivenOver(text: string, front: seq<Edit>, e: Edit, all: seq<Edit>, next: nat)
    requires Fitting(front, |text|) && Lower(front, e) && e.lo < e.hi <= |text| && all == front + [e] && next == e.lo + 1
    ensures Fitting(all, |text|) && Given(text, all, next) == Given(text, front, e.hi)
  {
    AfterReplacement(text, front, e, all, next);
    forall i: nat | next <= i < e.hi ensures PutsAt(text, all, i) == "" && Covered(all, i) {
      AfterReplacement(text, front, e, all, i);
    }
    GivenSkipped(text, all, next, e.hi);
    forall i: nat | e.hi <= i
      ensures PutsAt(text, all, i) == PutsAt(text, front, i) && (Covered(all, i) <==> Covered(front, i))
    {
      AfterReplacement(text, front, e, all, i);
    }
    GivenAgrees(text, all, front, e.hi);
  }

  /** What stands there after it. */
  lemma GivenReplaced(text: string, front: seq<Edit>, e: Edit, all: seq<Edit>)
    requires Fitting(front, |text|) && Lower(front, e) && e.lo < e.hi <= |text| && all == front + [e]
    ensures Fitting(all, |text|)
    ensures Given(text, all, e.lo) == PutsAt(text, all, e.lo) + Given(text, front, e.hi)
  {
    var next := e.lo + 1;
    AfterReplacement(text, front, e, all, e.lo);
    GivenOpen(text, all, e.lo, next);
    GivenOver(text, front, e, all, next);
  }

  lemma GivenWhole(text: string, rs: seq<Edit>, b: nat)
    requires Fitting(rs, |text|) && b <= |text| && forall e :: e in rs ==> b <= e.lo
    ensures Given(text, rs, 0) == text[..b] + Given(text, rs, b)
  {
    forall i: nat | i < b ensures PutsAt(text, rs, i) == "" && !Covered(rs, i) {
      PutsNothing(text, rs, i);
    }
    GivenKept(text, rs, 0, b);
    assert text[0..b] == text[..b];
  }

  /** An edit whose end stays. */
  lemma GivenStep(text: string, front: seq<Edit>, e: Edit, all: seq<Edit>, now: string)
    requires Fitting(front, |text|) && Lower(front, e) && e.lo <= e.hi <= |text| && all == front + [e]
    requires now == Given(text, front, 0)
    ensures Fitting(all, |text|) && e.hi <= |now|
    ensures text[..e.lo] + e.text + now[e.hi..] == Given(text, all, 0)
  {
    var lo, hi := e.lo, e.hi;
    PutsAtSnoc(text, front, e, lo);
    GivenWhole(text, front, lo);
    GivenWhole(text, all, lo);
    if lo == hi {
      GivenInsertion(text, front, e, all);
      assert now[lo..] == Given(text, front, lo);
      Assoc(text[..lo], e.text, Given(text, front, lo));
    } else {
      var standing, rest := PutsAt(text, front, lo) + text[lo..hi], Given(text, front, hi);
      GivenAhead(text, front, e);
      GivenReplaced(text, front, e, all);
      Assoc(text[..lo], standing, rest);
      CutThrough(text[..lo], standing, rest, lo, hi, now);
      StepParts(text[..lo], e.text, standing[hi - lo..], rest);
    }
  }

  lemma StepParts(a: string, b: string, c: string, d: string)
    ensures a + b + (c + d) == a + ((b + c) + d)
  {
  }

  // ---------------------------------------------------------------- where ends are found

  /** No edit in front starts below `hi`, but for insertions at `lo`. */
  predicate Clear(front: seq<Edit>, lo: nat, hi: nat) {
    forall f :: f in front ==> f.lo == f.hi == lo || (lo < f.lo && hi <= f.lo)
  }

  predicate Above(front: seq<Edit>, b: nat) {
    forall f :: f in front ==> b <= f.lo
  }

  /** Whether or not ends moved, the text below all starts is original, and a range that is
      clear stands behind what was inserted at its start. */
  predicate Prefixed(text: string, front: seq<Edit>, now: string)
    requires Fitting(front, |text|)
  {
    && (forall b: nat :: b <= |text| && Above(front, b) ==> text[..b] <= now)
    && (forall lo: nat, hi: nat :: lo <= hi <= |text| && Clear(front, lo, hi)
          ==> text[..lo] + PutsAt(text, front, lo) + text[lo..hi] <= now)
  }

  lemma PrefixedStart(text: string)
    ensures Prefixed(text, [], text)
  {
    forall lo: nat, hi: nat | lo <= hi <= |text| ensures text[..lo] + PutsAt(text, [], lo) + text[lo..hi] <= text {
      assert text[..lo] + "" + text[lo..hi] == text[..hi];
    }
  }

  lemma PrefixedClear(text: string, front: seq<Edit>, e: Edit, all: seq<Edit>, now: string, next: string, lo: nat, hi: nat)
    requires Fitting(front, |text|) && e.lo <= e.hi <= |text| && Above(front, e.lo) && all == front + [e]
    requires Prefixed(text, front, now) && lo <= hi <= |text| && Clear(all, lo, hi)
    requires text[..e.lo] + e.text <= next
    requires e.lo == e.hi <= |now| ==> next == text[..e.lo] + e.text + now[e.lo..]
    requires e.lo <= |now|
    ensures Fitting(all, |text|) && text[..lo] + PutsAt(text, all, lo) + text[lo..hi] <= next
  {
    PutsAtSnoc(text, front, e, lo);
    assert e in all;
    assert Clear(front, lo, hi);
    if e.lo == lo {
      var p := PutsAt(text, front, lo);
      assert p + text[lo..lo] == p;
      assert text[..lo] + p + text[lo..hi] <= now;
      InsertedPrefix(text[..lo], e.text, p, text[lo..hi], now, lo);
    } else {
      PutsNothing(text, front, lo);
      assert text[..lo] + "" + text[lo..hi] == text[..hi] <= text[..e.lo];
    }
  }

  lemma InsertedPrefix(a: string, x: string, p: string, c: string, now: string, lo: nat)
    requires |a| == lo && a + p + c <= now
    ensures a + (x + p) + c <= a + x + now[lo..]
  {
    assert (a + p + c)[lo..] == p + c;
    assert p + c <= now[lo..];
    assert a + (x + p) + c == a + x + (p + c);
  }

  lemma PrefixedStep(text: string, front: seq<Edit>, e: Edit, all: seq<Edit>, now: string, h: nat)
    requires Fitting(front, |text|) && e.lo <= e.hi <= |text| && Above(front, e.lo) && all == front + [e]
    requires Prefixed(text, front, now) && e.lo <= h <= |now| && (e.lo == e.hi ==> h == e.lo)
    ensures Fitting(all, |text|) && Prefixed(text, all, text[..e.lo] + e.text + now[h..])
  {
    var next := text[..e.lo] + e.text + now[h..];
    PutsAtSnoc(text, front, e, 0);
    forall b: nat | b <= |text| && Above(all, b) ensures text[..b] <= next {
      assert e in all;
      assert text[..b] <= text[..e.lo];
    }
    forall lo: nat, hi: nat | lo <= hi <= |text| && Clear(all, lo, hi)
      ensures text[..lo] + PutsAt(text, all, lo) + text[lo..hi] <= next
    {
      PrefixedClear(text, front, e, all, now, next, lo, hi);
    }
  }

  /** The end is found at its old offset exactly when it stays there. */
  lemma FoundExactly(text: string, front: seq<Edit>, e: Edit, now: string)
    requires Fitting(front, |text|) && Lower(front, e) && e.lo <= e.hi <= |text| && Prefixed(text, front, now)
    ensures e.lo <= |now| && now[..e.lo] == text[..e.lo]
    ensures Resolve(now, PosAt(text, e.hi)) == Some(e.hi) <==> Stays(text, front, e)
  {
    var lo, hi := e.lo, e.hi;
    assert Above(front, lo);
    assert text[..lo] <= now;
    if lo == hi {
      ResolveInverse(now, PosAt(text, lo), lo);
    } else {
      var standing := PutsAt(text, front, lo) + text[lo..hi];
      assert Clear(front, lo, hi);
      Assoc(text[..lo], PutsAt(text, front, lo), text[lo..hi]);
      var rest := now[lo + |standing|..];
      assert now == text[..lo] + standing + rest;
      AheadCut(text, lo, hi, standing, rest, now);
      ResolveInverse(now, PosAt(text, hi), hi);
    }
  }

  // ---------------------------------------------------------------- the whole loop

  lemma LastLower(front: seq<Edit>, e: Edit, all: seq<Edit>)
    requires all == front + [e] && Disjoint(all) && Sorted(all, NotBelow)
    ensures Lower(front, e) && Above(front, e.lo)
  {
    forall f | f in front ensures f.lo <= f.hi && e.lo <= f.lo && (f.lo == f.hi == e.lo || e.hi <= f.lo) {
      var k :| 0 <= k < |front| && front[k] == f;
      assert all[k] == f && all[|front|] == e && NotBelow(all[k], all[|front|]);
    }
  }

  lemma InOrderSnoc(text: string, es: seq<TextEdit>, z: TextEdit)
    ensures ApplyInOrder(text, es + [z])
            == match ApplyInOrder(text, es)
               case Ok(t) => ApplyOne(t, z)
               case Err(e) => Err(e)
  {
    InOrderConcat(text, es, [z]);
    assert [z][1..] == [];
  }

  /** The text after the edits `rs`, in so far as ends stayed. */
  predicate Tells(text: string, rs: seq<Edit>, r: Result<string, EditError>)
    requires Fitting(rs, |text|)
  {
    match r
    case Ok(now) =>
      && (|now| == |Simultaneous(text, rs)| <==> AllStay(text, rs))
      && (AllStay(text, rs) ==> now == Given(text, rs, 0))
    case Err(_) => !AllStay(text, rs)
  }

  predicate Played(text: string, rs: seq<Edit>, r: Result<string, EditError>)
    requires Fitting(rs, |text|)
  {
    Tells(text, rs, r) && (r.Ok? ==> Prefixed(text, rs, r.value))
  }

  lemma PlayedStart(text: string)
    ensures Played(text, [], Ok(text))
  {
    PrefixedStart(text);
    GivenKept(text, [], 0, |text|);
    EmittedPlain(text, |text|);
    assert text[0..|text|] == text[..|text|] == text;
  }

  lemma PlayedNext(text: string, front: seq<Edit>, e: Edit, all: seq<Edit>, now: string, h: nat)
    requires Fitting(front, |text|) && all == front + [e] && Played(text, front, Ok(now))
    requires Lower(front, e) && Above(front, e.lo) && Untouched(front, e) && e.lo <= e.hi <= |text|
    requires AllStay(text, front) || Stays(text, front, e)
    requires e.lo <= h <= |now| && (e.lo == e.hi ==> h == e.lo) && (h == e.hi <==> Stays(text, front, e))
    ensures Fitting(all, |text|) && Played(text, all, Ok(text[..e.lo] + e.text + now[h..]))
  {
    PrefixedStep(text, front, e, all, now, h);
    SimultaneousSnoc(text, front, e);
    AllStaySnoc(text, front, e);
    if AllStay(text, front) && Stays(text, front, e) {
      GivenStep(text, front, e, all, now);
    }
  }

  lemma PlayedStep(text: string, front: seq<Edit>, e: Edit, all: seq<Edit>, now: string, z: TextEdit)
    requires Fitting(front, |text|) && all == front + [e] && Denotes(text, z, e) && Played(text, front, Ok(now))
    requires Lower(front, e) && Above(front, e.lo) && Untouched(front, e) && e.lo <= e.hi
    requires AllStay(text, front) || Stays(text, front, e)
    ensures Fitting(all, |text|) && Played(text, all, ApplyOne(now, z))
  {
    AllStaySnoc(text, front, e);
    FoundExactly(text, front, e, now);
    ReplaceStep(text, now, z, e);
    EndAbove(text, now, z, e);
    var end := Resolve(now, z.end);
    if end.Some? {
      assert e.lo == e.hi ==> end.value == e.lo by {
        ResolveInverse(now, z.end, e.lo);
      }
      PlayedNext(text, front, e, all, now, end.value);
    }
  }

  lemma PlayedSnoc(text: string, es: seq<TextEdit>, z: TextEdit, front: seq<Edit>, e: Edit, all: seq<Edit>)
    requires Fitting(front, |text|) && all == front + [e] && Denotes(text, z, e)
    requires Played(text, front, ApplyInOrder(text, es))
    requires Lower(front, e) && Above(front, e.lo) && Untouched(front, e) && e.lo <= e.hi
    requires AllStay(text, front) || Stays(text, front, e)
    ensures Fitting(all, |text|) && Played(text, all, ApplyInOrder(text, es + [z]))
  {
    InOrderSnoc(text, es, z);
    AllStaySnoc(text, front, e);
    var before := ApplyInOrder(text, es);
    if before.Ok? {
      PlayedStep(text, front, e, all, before.value, z);
    }
  }

  /** The edits in the order of the loop. */
  predicate Descends(rs: seq<Edit>) {
    Disjoint(rs) && Sorted(rs, NotBelow)
  }

  lemma DescendsSnoc(front: seq<Edit>, e: Edit, all: seq<Edit>)
    requires all == front + [e] && Descends(all)
    ensures Descends(front) && Lower(front, e) && Above(front, e.lo) && Untouched(front, e) && e.lo <= e.hi
  {
    LastUntouched(front, e);
    LastLower(front, e, all);
    forall i, j | 0 <= i < j < |front| ensures NotBelow(front[i], front[j]) {
      assert NotBelow(all[i], all[j]);
    }
  }

  lemma {:induction false} InOrderPlayed(text: string, es: seq<TextEdit>, rs: seq<Edit>)
    requires DenoteAll(text, es, rs) && Fitting(rs, |text|) && Descends(rs) && OneMoves(text, rs)
    ensures Played(text, rs, ApplyInOrder(text, es))
  {
    if rs == [] {
      PlayedStart(text);
    } else {
      var n := |rs| - 1;
      var front, e := rs[..n], rs[n];
      assert rs == front + [e] && es == es[..n] + [es[n]];
      DescendsSnoc(front, e, rs);
      OneMovesSnoc(text, front, e);
      InOrderPlayed(text, es[..n], front);
      PlayedSnoc(text, es[..n], es[n], front, e, rs);
    }
  }

  lemma LoopFits(text: string, es: seq<TextEdit>)
    requires Resolvable(text, es) && Disjoint(Ranges(text, es))
    ensures Fitting(LoopRanges(text, es), |text|) && Disjoint(LoopRanges(text, es))
  {
    LoopOrder(text, es);
    SortDisjoint(Ranges(text, es));
    forall k | 0 <= k < |LoopRanges(text, es)| ensures LoopRanges(text, es)[k].hi <= |text| {
      assert Denotes(text, Sort(es, NotBefore)[k], LoopRanges(text, es)[k]);
    }
  }

  lemma TellsExactly(text: string, rs: seq<Edit>, r: Result<string, EditError>)
    requires Fitting(rs, |text|) && Tells(text, rs, r)
    ensures r == Ok(Simultaneous(text, rs)) <==> AllStay(text, rs) && Reads(text, rs)
  {
    SplitAt(text, rs, 0);
    assert Simultaneous(text, rs) == Onward(text, rs, 0);
    GivenApart(text, rs, 0);
  }

  /** Unless two ends move, the loop yields what the protocol asks for exactly when every end
      stays and what the loop puts at every offset reads as it should. */
  lemma LoopExactly(text: string, es: seq<TextEdit>)
    requires Resolvable(text, es) && Disjoint(Ranges(text, es))
    ensures var rs := LoopRanges(text, es);
            && Fitting(rs, |text|)
            && (OneMoves(text, rs) ==>
                (Apply(text, es) == Ok(Simultaneous(text, Ranges(text, es))) <==> AllStay(text, rs) && Reads(text, rs)))
  {
    var rs := LoopRanges(text, es);
    LoopOrder(text, es);
    LoopFits(text, es);
    SortKeepsMeaning(text, Ranges(text, es));
    if OneMoves(text, rs) {
      InOrderPlayed(text, Sort(es, NotBefore), rs);
      TellsExactly(text, rs, Apply(text, es));
    }
  }

  // ---------------------------------------------------------------- how far ends move

  /** By how much the edits lengthen a text. */
  function Growth(rs: seq<Edit>): int {
    if rs == [] then 0 else
      var r := rs[|rs| - 1];
      Growth(rs[..|rs| - 1]) + |r.text| - (r.hi - r.lo)
  }

  lemma {:induction false} GrowthConcat(a: seq<Edit>, b: seq<Edit>)
    ensures Growth(a + b) == Growth(a) + Growth(b)
  {
    if b == [] {
      assert a + b == a;
    } else {
      GrowthConcat(a, b[..|b| - 1]);
      assert (a + b)[..|a + b| - 1] == a + b[..|b| - 1];
    }
  }

  lemma GrowthCons(r: Edit, rs: seq<Edit>)
    ensures Growth([r] + rs) == |r.text| - (r.hi - r.lo) + Growth(rs)
  {
    GrowthConcat([r], rs);
    assert [r][..0] == [];
  }

  lemma {:induction false} SimultaneousLength(text: string, rs: seq<Edit>)
    requires Disjoint(rs) && Fitting(rs, |text|)
    ensures |Simultaneous(text, rs)| == |text| + Growth(rs)
  {
    if rs == [] {
      EmittedPlain(text, |text|);
    } else {
      var front, e := rs[..|rs| - 1], rs[|rs| - 1];
      assert rs == front + [e];
      LastUntouched(front, e);
      SimultaneousLength(text, front);
      SimultaneousSnoc(text, front, e);
    }
  }

  /** How far behind their old offsets the loop finds the ends, summed up. */
  function Shift(text: string, now: string, es: seq<TextEdit>, rs: seq<Edit>): int
    requires |es| == |rs| && Sorted(rs, NotBelow) && (rs != [] ==> rs[0].lo <= |text|)
    decreases |es|
  {
    if es == [] then 0 else
      var r := rs[0];
      match Resolve(now, es[0].end)
      case None => 0
      case Some(h) => h - r.hi + Shift(text, text[..r.lo] + r.text + now[h..], es[1..], rs[1..])
  }

  lemma {:induction false} ReplayLength(text: string, now: string, es: seq<TextEdit>, rs: seq<Edit>)
    requires |es| == |rs| && Sorted(rs, NotBelow) && (rs != [] ==> rs[0].lo <= |text|)
    ensures var r := Replay(text, now, es, rs);
            r.Ok? ==> |r.value| == |now| + Growth(rs) - Shift(text, now, es, rs)
    decreases |es|
  {
    if es != [] {
      var r, end := rs[0], Resolve(now, es[0].end);
      if end.Some? {
        var next := text[..r.lo] + r.text + now[end.value..];
        ReplayLength(text, next, es[1..], rs[1..]);
        GrowthCons(r, rs[1..]);
        assert rs == [r] + rs[1..];
      }
    }
  }

  /** Whatever the number of ends that move: the result of the loop is as much shorter than the
      wanted one as they moved in all, so the loop can agree only if they make up for each other. */
  lemma LoopShifts(text: string, es: seq<TextEdit>)
    requires Resolvable(text, es) && Disjoint(Ranges(text, es))
    ensures var rs := LoopRanges(text, es);
            && |Sort(es, NotBefore)| == |rs| && Sorted(rs, NotBelow) && (rs != [] ==> rs[0].lo <= |text|)
            && (Apply(text, es).Ok? ==>
                |Apply(text, es).value|
                == |Simultaneous(text, Ranges(text, es))| - Shift(text, text, Sort(es, NotBefore), rs))
  {
    var rs := LoopRanges(text, es);
    LoopOrder(text, es);
    LoopFits(text, es);
    LoopOutcome(text, es);
    SortKeepsMeaning(text, Ranges(text, es));
    SimultaneousLength(text, rs);
    ReplayLength(text, text, Sort(es, NotBefore), rs);
  }

  // ---------------------------------------------------------------- two ends that move

  lemma InsertedFour(a: Edit, b: Edit, c: Edit, d: Edit, i: nat)
    ensures Inserted([a, b, c, d], i) == TextAt(a, i) + TextAt(b, i) + TextAt(c, i) + TextAt(d, i)
  {
    InsertedSnoc([], a, i);
    InsertedSnoc([a], b, i);
    InsertedSnoc([a, b], c, i);
    InsertedSnoc([a, b, c], d, i);
    assert [] + [a] == [a] && [a] + [b] == [a, b] && [a, b] + [c] == [a, b, c] && [a, b, c] + [d] == [a, b, c, d];
  }

  lemma InOrderCons(t: string, e: TextEdit, r: Edit, es: seq<TextEdit>)
    requires Denotes(t, e, r) && r.lo <= r.hi
    ensures ApplyInOrder(t, [e] + es) == ApplyInOrder(Replaced(t, r), es)
  {
    ApplyOneAt(t, e, r);
    assert ([e] + es)[1..] == es;
  }

  lemma FirstPositions(s: string)
    ensures PosAt(s, 0) == Position(0, 0)
    ensures |s| >= 1 ==> PosAt(s, 1) == Advance(Position(0, 0), s[0])
    ensures |s| >= 2 ==> PosAt(s, 2) == Advance(PosAt(s, 1), s[1])
    ensures |s| >= 3 ==> PosAt(s, 3) == Advance(PosAt(s, 2), s[2])
  {
    assert s[..0] == "";
    if |s| >= 1 { PosAtStep(s, 0); }
    if |s| >= 2 { PosAtStep(s, 1); }
    if |s| >= 3 { PosAtStep(s, 2); }
  }

  lemma WalkOne(p: Position, c: char)
    ensures Walk(p, [c]) == Advance(p, c)
  {
    assert [c][..0] == "";
  }

  lemma WalkTwo(p: Position, c: char, d: char)
    ensures Walk(p, [c, d]) == Advance(Advance(p, c), d)
  {
    WalkConcat(p, [c], [d]);
    WalkOne(p, c);
    WalkOne(Advance(p, c), d);
    assert [c] + [d] == [c, d];
  }

  /** Two ends that move can make up for each other: the loop deletes an inserted character
      with the range at 0 and leaves a deleted one at 1. */
  lemma TwoMovesCanAgree(text: string, es: seq<TextEdit>, rs: seq<Edit>)
    requires text == "\nx\n"
    requires var a, b := Position(0, 0), Position(1, 0);
             es == [TextEdit(b, b, "\n"), TextEdit(b, Position(2, 0), ""), TextEdit(a, a, "x"), TextEdit(a, b, "")]
    requires rs == [Edit(1, 1, "\n"), Edit(1, 3, ""), Edit(0, 0, "x"), Edit(0, 1, "")]
    ensures Resolvable(text, es) && LoopRanges(text, es) == Ranges(text, es) == rs && Disjoint(rs) && Fitting(rs, |text|)
    ensures Apply(text, es) == Ok("x\n") && Simultaneous(text, rs) == "x\n" && !AllStay(text, rs)
  {
    TwoMovesRanges(text, es, rs);
    TwoMovesShape(rs);
    TwoMovesApply(text, es[0], es[1], es[2], es[3]);
    assert es == [es[0]] + [es[1], es[2], es[3]];
    SortSorted(es, NotBefore);
    TwoMovesMean(text, rs[0], rs[1], rs[2], rs[3], rs);
    assert rs[..1] == [] + [rs[0]];
    TwoMovesMove(text, es[1], rs[..1], rs[1]);
  }

  lemma TwoMovesShape(rs: seq<Edit>)
    requires rs == [Edit(1, 1, "\n"), Edit(1, 3, ""), Edit(0, 0, "x"), Edit(0, 1, "")]
    ensures Disjoint(rs) && Fitting(rs, 3) && Sort(rs, NotBelow) == rs
  {
    SortSorted(rs, NotBelow);
  }

  lemma TwoMovesRanges(text: string, es: seq<TextEdit>, rs: seq<Edit>)
    requires text == "\nx\n"
    requires var a, b := Position(0, 0), Position(1, 0);
             es == [TextEdit(b, b, "\n"), TextEdit(b, Position(2, 0), ""), TextEdit(a, a, "x"), TextEdit(a, b, "")]
    requires rs == [Edit(1, 1, "\n"), Edit(1, 3, ""), Edit(0, 0, "x"), Edit(0, 1, "")]
    ensures Resolvable(text, es) && Ranges(text, es) == rs
  {
    FirstPositions(text);
    ResolveInverse(text, Position(0, 0), 0);
    ResolveInverse(text, Position(1, 0), 1);
    ResolveInverse(text, Position(2, 0), 3);
  }

  lemma TwoMovesApply(text: string, a: TextEdit, b: TextEdit, c: TextEdit, d: TextEdit)
    requires text == "\nx\n"
    requires a == TextEdit(Position(1, 0), Position(1, 0), "\n") && b == TextEdit(Position(1, 0), Position(2, 0), "")
    requires c == TextEdit(Position(0, 0), Position(0, 0), "x") && d == TextEdit(Position(0, 0), Position(1, 0), "")
    ensures ApplyInOrder(text, [a] + [b, c, d]) == Ok("x\n")
  {
    var t1, t3 := "\n\nx\n", "x\nx\n";
    FirstPositions(text);
    FirstPositions(t1);
    FirstPositions(t3);
    var r, s, p, q := Edit(1, 1, "\n"), Edit(1, 2, ""), Edit(0, 0, "x"), Edit(0, 2, "");
    assert Replaced(text, r) == t1 && Replaced(t1, s) == text && Replaced(text, p) == t3 && Replaced(t3, q) == "x\n";
    assert [b, c, d] == [b] + [c, d] && [c, d] == [c] + [d] && [d] == [d] + [];
    InOrderCons(text, a, r, [b, c, d]);
    InOrderCons(t1, b, s, [c, d]);
    InOrderCons(text, c, p, [d]);
    InOrderCons(t3, d, q, []);
  }

  lemma TwoMovesInsert(a: Edit, b: Edit, c: Edit, d: Edit, rs: seq<Edit>)
    requires rs == [a, b, c, d]
    requires a == Edit(1, 1, "\n") && b == Edit(1, 3, "") && c == Edit(0, 0, "x") && d == Edit(0, 1, "")
    ensures Inserted(rs, 0) == "x" && Inserted(rs, 1) == "\n" && Inserted(rs, 2) == "" && Inserted(rs, 3) == ""
  {
    InsertedFour(a, b, c, d, 0);
    InsertedFour(a, b, c, d, 1);
    InsertedFour(a, b, c, d, 2);
    InsertedFour(a, b, c, d, 3);
  }

  lemma TwoMovesMean(text: string, a: Edit, b: Edit, c: Edit, d: Edit, rs: seq<Edit>)
    requires text == "\nx\n" && rs == [a, b, c, d]
    requires a == Edit(1, 1, "\n") && b == Edit(1, 3, "") && c == Edit(0, 0, "x") && d == Edit(0, 1, "")
    ensures Simultaneous(text, rs) == "x\n"
  {
    TwoMovesInsert(a, b, c, d, rs);
    assert Covered(rs, 0) by { assert d in rs; }
    assert Covered(rs, 1) && Covered(rs, 2) by { assert b in rs; }
    assert At(text, rs, 0) == "x" + "" && At(text, rs, 1) == "\n" + "" && At(text, rs, 2) == "" + "";
    EmittedSnoc(text, rs, 0, 1);
    EmittedSnoc(text, rs, 1, 2);
    EmittedSnoc(text, rs, 2, 3);
  }

  lemma StandingMoves(standing: string)
    requires standing == "\n" + "x\n"
    ensures Walk(Position(1, 0), standing[..2]) == Position(2, 1)
  {
    assert standing[..2] == ['\n', 'x'];
    WalkTwo(Position(1, 0), '\n', 'x');
  }

  lemma TwoMovesMove(text: string, z: TextEdit, front: seq<Edit>, e: Edit)
    requires text == "\nx\n" && front == [] + [Edit(1, 1, "\n")] && e == Edit(1, 3, "")
    requires z == TextEdit(Position(1, 0), Position(2, 0), "") && Denotes(text, z, e)
    ensures Fitting(front, |text|) && !Stays(text, front, e)
  {
    PutsAtInsertion(text, [], front[0], 1);
    StaysAs(text, front, e, z, "\n");
    assert text[1..3] == "x\n";
    StandingMoves("\n" + text[1..3]);
  }
}
