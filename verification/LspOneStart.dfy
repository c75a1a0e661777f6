/** Insertions followed by one replacement with the same start. */
module LspOneStart {
  import opened Text
  import opened Sorting
  import opened Splice
  import opened LspEdits
  import opened LspTies

  /** The ranges of insertions at `lo`. */
  function Insertions(lo: nat, xs: seq<TextEdit>): (rs: seq<Edit>)
    ensures |rs| == |xs| && forall k :: 0 <= k < |xs| ==> rs[k] == Edit(lo, lo, xs[k].newText)
  {
    seq(|xs|, k requires 0 <= k < |xs| => Edit(lo, lo, xs[k].newText))
  }

  predicate AllAt(rs: seq<Edit>, lo: nat) {
    forall k :: 0 <= k < |rs| ==> rs[k].lo == rs[k].hi == lo
  }

  lemma {:induction false} InsertionsAhead(text: string, rs: seq<Edit>, lo: nat, h: nat)
    requires lo <= h <= |text| && AllAt(rs, lo)
    ensures SplicedDown(text, rs, h) == text[..lo] + Inserted(Reverse(rs), lo) + text[lo..h]
    decreases |rs|
  {
    if rs == [] {
      assert text[..h] == text[..lo] + "" + text[lo..h];
    } else {
      var r, rest := rs[0], rs[1..];
      InsertionsAhead(text, rest, lo, lo);
      assert rs == [r] + rest;
      ReversedCons(r, rest);
      InsertedSnoc(Reverse(rest), r, lo);
      var before := Inserted(Reverse(rest), lo);
      assert text[lo..lo] == "" && text[..lo] + before + "" == text[..lo] + before;
      Assoc(text[..lo], before, r.text);
    }
  }

  /** What the protocol makes of insertions and a replacement with one start. */
  lemma InsertionsMean(text: string, rs: seq<Edit>, r: Edit)
    requires r.lo <= r.hi <= |text| && AllAt(rs, r.lo)
    ensures Simultaneous(text, rs + [r]) == text[..r.lo] + Inserted(rs, r.lo) + r.text + text[r.hi..]
  {
    forall i | 0 <= i < r.lo ensures At(text, rs, i) == At(text, [], i) {
      NothingInserted(rs, i);
    }
    EmittedAgrees(text, rs, [], r.lo);
    EmittedPlain(text, r.lo);
    LastStep(text, rs, r, |text|);
  }

  /** Edits with one start keep their order. */
  lemma SameStart(es: seq<TextEdit>, at: Position)
    requires forall k :: 0 <= k < |es| ==> es[k].start == at
    ensures Sort(es, NotBefore) == es
  {
    SortSorted(es, NotBefore);
  }

  lemma SameLow(rs: seq<Edit>, lo: nat)
    requires forall k :: 0 <= k < |rs| ==> rs[k].lo == lo
    ensures Sort(rs, NotBelow) == rs
  {
    SortSorted(rs, NotBelow);
  }

  lemma OneStartRanges(text: string, xs: seq<TextEdit>, z: TextEdit, r: Edit)
    requires Denotes(text, z, r)
    requires forall k :: 0 <= k < |xs| ==> xs[k].start == xs[k].end == z.start
    ensures Resolvable(text, xs + [z])
    ensures Ranges(text, xs + [z]) == Insertions(r.lo, xs) + [r]
  {
    ResolveInverse(text, z.start, r.lo);
    ResolveInverse(text, z.end, r.hi);
  }

  lemma OneStartShape(rs: seq<Edit>, r: Edit, all: seq<Edit>)
    requires AllAt(rs, r.lo) && r.lo < r.hi && all == rs + [r]
    ensures Disjoint(all) && Sort(all, NotBelow) == all
  {
    SameLow(all, r.lo);
  }

  lemma OneStartOrder(text: string, xs: seq<TextEdit>, z: TextEdit, r: Edit, es: seq<TextEdit>)
    requires r.lo < r.hi && Denotes(text, z, r) && es == xs + [z]
    requires forall k :: 0 <= k < |xs| ==> xs[k].start == xs[k].end == z.start
    ensures Resolvable(text, es) && Disjoint(Ranges(text, es)) && Sort(es, NotBefore) == es
    ensures LoopRanges(text, es) == Ranges(text, es) == Insertions(r.lo, xs) + [r]
  {
    OneStartRanges(text, xs, z, r);
    SameStart(es, z.start);
    OneStartShape(Insertions(r.lo, xs), r, Ranges(text, es));
  }

  function Inserting(text: string, xs: seq<TextEdit>, lo: nat): string
    requires lo <= |text|
  {
    text[..lo] + Inserted(Reverse(Insertions(lo, xs)), lo) + text[lo..]
  }

  lemma InsertionsInOrder(text: string, xs: seq<TextEdit>, at: Position, lo: nat)
    requires lo <= |text| && PosAt(text, lo) == at
    requires forall k :: 0 <= k < |xs| ==> xs[k].start == xs[k].end == at
    ensures ApplyInOrder(text, xs) == Ok(Inserting(text, xs, lo))
  {
    var ins := Insertions(lo, xs);
    InOrderIsSpliced(text, xs, ins);
    InsertionsAhead(text, ins, lo, |text|);
    assert text[lo..|text|] == text[lo..];
  }

  lemma InsertionsThenStep(text: string, xs: seq<TextEdit>, z: TextEdit, r: Edit)
    requires r.lo < r.hi && Denotes(text, z, r)
    requires forall k :: 0 <= k < |xs| ==> xs[k].start == xs[k].end == z.start
    ensures var now := Inserting(text, xs, r.lo);
            ApplyInOrder(text, xs + [z])
            == match Resolve(now, z.end)
               case None => Err(PositionOutOfRange)
               case Some(h) => Ok(text[..r.lo] + r.text + now[h..])
  {
    var now := Inserting(text, xs, r.lo);
    assert now[..r.lo] == text[..r.lo];
    InsertionsInOrder(text, xs, z.start, r.lo);
    InOrderSnoc(text, xs, z);
    ReplaceStep(text, now, z, r);
    EndAbove(text, now, z, r);
  }

  /** Insertions before a replacement with the same start: what the loop does, and what the
      protocol asks for. */
  lemma InsertionsThenReplacement(text: string, xs: seq<TextEdit>, z: TextEdit, r: Edit, es: seq<TextEdit>)
    requires r.lo < r.hi && Denotes(text, z, r) && es == xs + [z]
    requires forall k :: 0 <= k < |xs| ==> xs[k].start == xs[k].end == z.start
    ensures Resolvable(text, es)
    ensures Simultaneous(text, Ranges(text, es))
            == text[..r.lo] + Inserted(Insertions(r.lo, xs), r.lo) + z.newText + text[r.hi..]
    ensures var now := Inserting(text, xs, r.lo);
            Apply(text, es)
            == match Resolve(now, z.end)
               case None => Err(PositionOutOfRange)
               case Some(h) => Ok(text[..r.lo] + z.newText + now[h..])
  {
    OneStartOrder(text, xs, z, r, es);
    InsertionsThenStep(text, xs, z, r);
    InsertionsMean(text, Insertions(r.lo, xs), r);
  }

  lemma InsertionsStay(text: string, ins: seq<Edit>, lo: nat)
    requires AllAt(ins, lo) && lo <= |text|
    ensures Fitting(ins, |text|) && AllStay(text, ins)
  {
    forall k | 0 <= k < |ins| ensures Stays(text, ins[..k], ins[k]) {
    }
  }

  lemma OneStartPuts(text: string, ins: seq<Edit>, r: Edit, all: seq<Edit>, i: nat)
    requires AllAt(ins, r.lo) && r.lo <= r.hi <= |text| && all == ins + [r]
    ensures Fitting(all, |text|)
    ensures PutsAt(text, all, i)
            == if i != r.lo then "" else r.text + (Inserted(Reverse(ins), i) + text[r.lo..r.hi])[r.hi - r.lo..]
    ensures Inserted(all, i) == if i != r.lo then "" else Inserted(ins, i) + r.text
  {
    PutsAtInsertions(text, ins, r.lo);
    PutsAtSnoc(text, ins, r, r.lo);
    InsertedSnoc(ins, r, i);
    if i != r.lo {
      PutsNothing(text, all, i);
      NothingInserted(all, i);
    }
  }

  lemma OneStartMoves(text: string, ins: seq<Edit>, r: Edit, all: seq<Edit>)
    requires AllAt(ins, r.lo) && r.lo <= r.hi <= |text| && all == ins + [r]
    ensures Fitting(all, |text|) && OneMoves(text, all)
  {
    InsertionsStay(text, ins, r.lo);
    forall k | 0 <= k < |ins| ensures all[..k] == ins[..k] && all[k] == ins[k] {
    }
  }

  lemma OneStartReads(text: string, ins: seq<Edit>, r: Edit, all: seq<Edit>)
    requires AllAt(ins, r.lo) && r.lo <= r.hi <= |text| && all == ins + [r]
    ensures Fitting(all, |text|)
    ensures Reads(text, all)
            <==> r.text + (Inserted(Reverse(ins), r.lo) + text[r.lo..r.hi])[r.hi - r.lo..] == Inserted(ins, r.lo) + r.text
  {
    forall i: nat ensures PutsAt(text, all, i) == Inserted(all, i)
                          || (i == r.lo && r.text + (Inserted(Reverse(ins), i) + text[r.lo..r.hi])[r.hi - r.lo..] != Inserted(ins, i) + r.text) {
      OneStartPuts(text, ins, r, all, i);
    }
    OneStartPuts(text, ins, r, all, r.lo);
  }

  lemma OneStartTells(text: string, ins: seq<Edit>, r: Edit, z: TextEdit, rs: seq<Edit>)
    requires AllAt(ins, r.lo) && r.lo <= r.hi && Denotes(text, z, r) && rs == ins + [r]
    ensures Fitting(rs, |text|)
    ensures var standing := Inserted(Reverse(ins), r.lo) + text[r.lo..r.hi];
            AllStay(text, rs) && Reads(text, rs)
            <==> && Walk(z.start, standing[..r.hi - r.lo]) == z.end
                 && r.text + standing[r.hi - r.lo..] == Inserted(ins, r.lo) + r.text
  {
    InsertionsStay(text, ins, r.lo);
    AllStaySnoc(text, ins, r);
    PutsAtInsertions(text, ins, r.lo);
    StaysAs(text, ins, r, z, Inserted(Reverse(ins), r.lo));
    OneStartReads(text, ins, r, rs);
  }

  lemma OneStartLoop(text: string, xs: seq<TextEdit>, z: TextEdit, r: Edit, es: seq<TextEdit>, rs: seq<Edit>)
    requires Denotes(text, z, r) && r.lo < r.hi && es == xs + [z] && rs == Insertions(r.lo, xs) + [r]
    requires forall k :: 0 <= k < |xs| ==> xs[k].start == xs[k].end == z.start
    ensures Resolvable(text, es) && Ranges(text, es) == rs && Fitting(rs, |text|)
    ensures Apply(text, es) == Ok(Simultaneous(text, rs)) <==> AllStay(text, rs) && Reads(text, rs)
  {
    OneStartOrder(text, xs, z, r, es);
    OneStartMoves(text, Insertions(r.lo, xs), r, rs);
    LoopExactly(text, es);
  }

  /** The two agree exactly when the insertions and the replaced text, standing at the common
      start, reach the end of the range after as many characters as the range is long, and what
      is left of them behind the new text reads like the insertions in front of it. */
  lemma InsertionsAgreeExactly(text: string, xs: seq<TextEdit>, z: TextEdit, r: Edit, es: seq<TextEdit>)
    requires r.lo < r.hi && Denotes(text, z, r) && es == xs + [z]
    requires forall k :: 0 <= k < |xs| ==> xs[k].start == xs[k].end == z.start
    ensures var ins := Insertions(r.lo, xs);
            var standing := Inserted(Reverse(ins), r.lo) + text[r.lo..r.hi];
            && Resolvable(text, es)
            && (Apply(text, es) == Ok(Simultaneous(text, Ranges(text, es))) <==>
                && Walk(z.start, standing[..r.hi - r.lo]) == z.end
                && z.newText + standing[r.hi - r.lo..] == Inserted(ins, r.lo) + z.newText)
  {
    var ins := Insertions(r.lo, xs);
    OneStartLoop(text, xs, z, r, es, ins + [r]);
    OneStartTells(text, ins, r, z, ins + [r]);
  }

  lemma InsertedOne(e: Edit)
    ensures Inserted([e], e.lo) == e.text && Reverse([e]) == [e]
  {
    InsertedSnoc([], e, e.lo);
    assert [e] == [] + [e];
  }

  lemma OneInserting(text: string, x: TextEdit, lo: nat)
    requires lo <= |text|
    ensures Inserted(Insertions(lo, [x]), lo) == x.newText
    ensures Inserting(text, [x], lo) == text[..lo] + x.newText + text[lo..]
  {
    assert Insertions(lo, [x]) == [Edit(lo, lo, x.newText)];
    InsertedOne(Edit(lo, lo, x.newText));
  }

  /** The same for one insertion. */
  lemma InsertionThenReplacement(text: string, x: TextEdit, z: TextEdit, r: Edit, es: seq<TextEdit>)
    requires r.lo < r.hi && Denotes(text, z, r) && x.start == x.end == z.start && es == [x] + [z]
    ensures Resolvable(text, es)
    ensures Simultaneous(text, Ranges(text, es)) == text[..r.lo] + x.newText + z.newText + text[r.hi..]
    ensures var now := text[..r.lo] + x.newText + text[r.lo..];
            Apply(text, es)
            == match Resolve(now, z.end)
               case None => Err(PositionOutOfRange)
               case Some(h) => Ok(text[..r.lo] + z.newText + now[h..])
  {
    OneInserting(text, x, r.lo);
    InsertionsThenReplacement(text, [x], z, r, es);
  }

  lemma InsertionAgreesExactly(text: string, x: TextEdit, z: TextEdit, r: Edit, es: seq<TextEdit>)
    requires r.lo < r.hi && Denotes(text, z, r) && x.start == x.end == z.start && es == [x] + [z]
    ensures var standing := x.newText + text[r.lo..r.hi];
            && Resolvable(text, es)
            && (Apply(text, es) == Ok(Simultaneous(text, Ranges(text, es))) <==>
                && Walk(z.start, standing[..r.hi - r.lo]) == z.end
                && z.newText + standing[r.hi - r.lo..] == x.newText + z.newText)
  {
    OneInserting(text, x, r.lo);
    InsertionsAgreeExactly(text, [x], z, r, es);
  }

  lemma OneCharacter(s: string, c: char, rest: string)
    requires s == [c] + rest && Utf16Width(c) == 1 && c != '\n'
    ensures PosAt(s, 0) == Position(0, 0) && PosAt(s, 1) == Position(0, 1)
  {
    assert s[..0] == "" && s[..1] == [c];
    OnOneLine([c]);
  }

  /** A replacement right behind an insertion can remove the inserted text instead of the
      original one. */
  lemma InsertThenReplaceFails(text: string, x: TextEdit, z: TextEdit, es: seq<TextEdit>)
    requires text == "a" && es == [x] + [z]
    requires x == TextEdit(Position(0, 0), Position(0, 0), "X") && z == TextEdit(Position(0, 0), Position(0, 1), "Z")
    ensures Resolvable(text, es)
    ensures Apply(text, es) == Ok("Za") && Simultaneous(text, Ranges(text, es)) == "XZ"
  {
    OneCharacter(text, 'a', "");
    InsertionThenReplacement(text, x, z, Edit(0, 1, "Z"), es);
    var now := text[..0] + x.newText + text[0..];
    OneCharacter(now, 'X', text);
    ResolveInverse(now, z.end, 1);
    assert text[..0] + z.newText + now[1..] == "Za" && text[..0] + x.newText + z.newText + text[1..] == "XZ";
  }
}
