/** What it means to apply several edits to a text at once.

    `Simultaneous` looks at every offset of the original text in turn and never at an
    edited text, so it does not depend on the order in which edits are carried out. Edits
    with equal starts contribute in the order of the list, as the `TextEdit[]` section of
    the Language Server Protocol, version 3.17, asks. `Spliced` is the left to right form
    for edits that are already sorted; the lemmas show that the two agree. */
module Splice {
  import opened Text

  datatype Edit = Edit(lo: nat, hi: nat, text: string)

  /** The texts of the edits that start at `i`, in list order. */
  function Inserted(es: seq<Edit>, i: nat): string {
    if es == [] then "" else
      var e := es[|es| - 1];
      Inserted(es[..|es| - 1], i) + (if e.lo == i then e.text else "")
  }

  predicate Covered(es: seq<Edit>, i: nat) {
    exists e :: e in es && e.lo <= i < e.hi
  }

  /** What the offset `i` contributes to the result. */
  function At(text: string, es: seq<Edit>, i: nat): string
    requires i < |text|
  {
    Inserted(es, i) + (if Covered(es, i) then "" else [text[i]])
  }

  /** The part of the result that comes from the offsets below `h`. */
  function Emitted(text: string, es: seq<Edit>, h: nat): string
    requires h <= |text|
  {
    if h == 0 then "" else Emitted(text, es, h - 1) + At(text, es, h - 1)
  }

  function Simultaneous(text: string, es: seq<Edit>): string {
    Emitted(text, es, |text|) + Inserted(es, |text|)
  }

  /** Edits in ascending order that do not overlap. Empty ranges may share a start. */
  predicate Ascending(es: seq<Edit>, h: nat) {
    && (forall i :: 0 <= i < |es| ==> es[i].lo <= es[i].hi <= h)
    && (forall i, j :: 0 <= i < j < |es| ==> es[i].hi <= es[j].lo)
  }

  /** Ascending edits applied from left to right to `text[..h]`. */
  function Spliced(text: string, es: seq<Edit>, h: nat): string
    requires h <= |text| && Ascending(es, h)
  {
    if es == [] then text[..h] else
      var e := es[|es| - 1];
      Spliced(text, es[..|es| - 1], e.lo) + e.text + text[e.hi..h]
  }

  lemma SplicedLast(text: string, es: seq<Edit>, h: nat, front: seq<Edit>)
    requires h <= |text| && Ascending(es, h) && es != [] && front == es[..|es| - 1]
    ensures var e := es[|es| - 1];
            && e.lo <= e.hi <= h && Ascending(front, e.lo)
            && Spliced(text, es, h) == Spliced(text, front, e.lo) + e.text + text[e.hi..h]
  {
  }

  lemma SplicedExtend(text: string, es: seq<Edit>, h: nat, k: nat)
    requires h <= k <= |text| && Ascending(es, h)
    ensures Spliced(text, es, k) == Spliced(text, es, h) + text[h..k]
  {
  }

  lemma {:induction false} NothingInserted(es: seq<Edit>, i: nat)
    requires forall e :: e in es ==> e.lo != i
    ensures Inserted(es, i) == ""
  {
    if es != [] {
      NothingInserted(es[..|es| - 1], i);
    }
  }

  lemma {:induction false} EmittedAgrees(text: string, es: seq<Edit>, fs: seq<Edit>, h: nat)
    requires h <= |text|
    requires forall i :: 0 <= i < h ==> At(text, es, i) == At(text, fs, i)
    ensures Emitted(text, es, h) == Emitted(text, fs, h)
  {
    if h > 0 {
      EmittedAgrees(text, es, fs, h - 1);
    }
  }

  lemma {:induction false} EmittedPlain(text: string, h: nat)
    requires h <= |text|
    ensures Emitted(text, [], h) == text[..h]
  {
    if h > 0 {
      EmittedPlain(text, h - 1);
      assert At(text, [], h - 1) == [text[h - 1]];
      assert text[..h] == text[..h - 1] + [text[h - 1]];
    }
  }

  lemma CoveredSnoc(es: seq<Edit>, e: Edit, i: nat)
    ensures Covered(es + [e], i) <==> Covered(es, i) || e.lo <= i < e.hi
  {
  }

  /** No edit before the last one starts or reaches beyond the start of the last one. */
  lemma BeforeLast(es: seq<Edit>, e: Edit, h: nat, i: nat)
    requires Ascending(es + [e], h) && e.lo <= i
    ensures !Covered(es, i)
    ensures e.lo < i ==> Inserted(es, i) == "" && Inserted(es + [e], i) == ""
    ensures Covered(es + [e], i) <==> i < e.hi
  {
    forall f | f in es ensures f.lo <= f.hi <= e.lo {
      var j :| 0 <= j < |es| && es[j] == f;
      assert (es + [e])[j] == f && (es + [e])[|es|] == e;
    }
    CoveredSnoc(es, e, i);
    if e.lo < i {
      NothingInserted(es, i);
      assert (es + [e])[..|es|] == es;
    }
  }

  /** The kept text of `text[..k]` behind the range of `e`. */
  function Behind(text: string, e: Edit, k: nat): string
    requires k <= |text|
  {
    if k <= e.hi then "" else text[e.hi..k]
  }

  function Kept(text: string, e: Edit, i: nat): string
    requires i < |text|
  {
    if i < e.hi then "" else [text[i]]
  }

  /** Where every offset emits just its kept text, so does the whole stretch. */
  lemma {:induction false} EmittedTail(text: string, es: seq<Edit>, e: Edit, left: string, m: nat, k: nat)
    requires m <= k <= |text|
    requires Emitted(text, es, m) == left + Behind(text, e, m)
    requires forall i :: m <= i < k ==> At(text, es, i) == Kept(text, e, i)
    ensures Emitted(text, es, k) == left + Behind(text, e, k)
  {
    if m < k {
      EmittedTail(text, es, e, left, m, k - 1);
      BehindGrows(text, e, k - 1);
      Assoc(left, Behind(text, e, k - 1), Kept(text, e, k - 1));
    }
  }

  lemma BehindGrows(text: string, e: Edit, i: nat)
    requires i < |text|
    ensures Behind(text, e, i + 1) == Behind(text, e, i) + Kept(text, e, i)
  {
  }

  /** Offsets below the last edit see only the edits before it. */
  lemma EmittedBelow(text: string, es: seq<Edit>, e: Edit)
    requires e.lo <= |text|
    ensures Emitted(text, es + [e], e.lo) == Emitted(text, es, e.lo)
  {
    forall i | 0 <= i < e.lo ensures At(text, es + [e], i) == At(text, es, i) {
      CoveredSnoc(es, e, i);
      InsertedSnoc(es, e, i);
    }
    EmittedAgrees(text, es + [e], es, e.lo);
  }

  lemma InsertedSnoc(es: seq<Edit>, e: Edit, i: nat)
    ensures Inserted(es + [e], i) == Inserted(es, i) + (if e.lo == i then e.text else "")
  {
  }

  lemma LastLeft(text: string, es: seq<Edit>, e: Edit)
    requires e.lo <= |text|
    ensures Emitted(text, es + [e], e.lo) + Inserted(es + [e], e.lo)
            == Emitted(text, es, e.lo) + Inserted(es, e.lo) + e.text
  {
    EmittedBelow(text, es, e);
    InsertedSnoc(es, e, e.lo);
    Assoc(Emitted(text, es, e.lo), Inserted(es, e.lo), e.text);
  }

  /** No other edit of `all` has a say from the start of `e` up to `h`. */
  predicate AloneBehind(all: seq<Edit>, e: Edit, h: nat) {
    && (forall i :: e.lo <= i < h ==> (Covered(all, i) <==> i < e.hi))
    && (forall i :: e.lo < i <= h ==> Inserted(all, i) == "")
  }

  lemma AloneStart(text: string, all: seq<Edit>, e: Edit, h: nat)
    requires e.lo < h <= |text| && AloneBehind(all, e, h) && e.lo <= e.hi
    ensures Emitted(text, all, e.lo + 1) == Emitted(text, all, e.lo) + Inserted(all, e.lo) + Behind(text, e, e.lo + 1)
  {
  }

  lemma AloneAt(text: string, all: seq<Edit>, e: Edit, h: nat, i: nat)
    requires e.lo < i < h <= |text| && AloneBehind(all, e, h)
    ensures At(text, all, i) == Kept(text, e, i)
  {
  }

  lemma AloneTail(text: string, all: seq<Edit>, e: Edit, h: nat)
    requires e.lo <= e.hi <= h <= |text| && AloneBehind(all, e, h)
    ensures Emitted(text, all, h) + Inserted(all, h) == Emitted(text, all, e.lo) + Inserted(all, e.lo) + text[e.hi..h]
  {
    var left := Emitted(text, all, e.lo) + Inserted(all, e.lo);
    if h > e.lo {
      AloneStart(text, all, e, h);
      forall i | e.lo + 1 <= i < h ensures At(text, all, i) == Kept(text, e, i) {
        AloneAt(text, all, e, h, i);
      }
      EmittedTail(text, all, e, left, e.lo + 1, h);
    }
  }

  lemma LastStep(text: string, es: seq<Edit>, e: Edit, h: nat)
    requires Ascending(es + [e], h) && e.lo <= e.hi <= h <= |text|
    ensures Emitted(text, es + [e], h) + Inserted(es + [e], h)
            == Emitted(text, es, e.lo) + Inserted(es, e.lo) + e.text + text[e.hi..h]
  {
    LastAlone(es, e, h);
    LastLeft(text, es, e);
    AloneTail(text, es + [e], e, h);
  }

  lemma LastAlone(es: seq<Edit>, e: Edit, h: nat)
    requires Ascending(es + [e], h)
    ensures AloneBehind(es + [e], e, h)
  {
    forall i | e.lo <= i <= h
      ensures Covered(es + [e], i) <==> i < e.hi
      ensures e.lo < i ==> Inserted(es + [e], i) == ""
    {
      BeforeLast(es, e, h, i);
    }
  }

  /** The left to right form computes the simultaneous edit. */
  lemma {:induction false} SplicedIsSimultaneous(text: string, es: seq<Edit>, h: nat)
    requires h <= |text| && Ascending(es, h)
    ensures Spliced(text, es, h) == Emitted(text, es, h) + Inserted(es, h)
  {
    if es == [] {
      EmittedPlain(text, h);
    } else {
      var n := |es| - 1;
      var front, e := es[..n], es[n];
      SplicedLast(text, es, h, front);
      SplicedIsSimultaneous(text, front, e.lo);
      assert es == front + [e];
      LastStep(text, front, e, h);
    }
  }

  predicate PairwiseDisjoint(es: seq<Edit>) {
    forall i, j :: 0 <= i < j < |es| ==> es[i].hi <= es[j].lo || es[j].hi <= es[i].lo
  }

  predicate DistinctStarts(es: seq<Edit>) {
    forall i, j :: 0 <= i < j < |es| ==> es[i].lo != es[j].lo
  }

  lemma {:induction false} InsertedUnique(es: seq<Edit>, e: Edit)
    requires DistinctStarts(es) && e in es
    ensures Inserted(es, e.lo) == e.text
  {
    var n := |es| - 1;
    if e == es[n] {
      forall f | f in es[..n] ensures f.lo != e.lo {
        var j :| 0 <= j < n && es[j] == f;
      }
      NothingInserted(es[..n], e.lo);
    } else {
      InsertedUnique(es[..n], e);
      var j :| 0 <= j < n && es[j] == e;
    }
  }

  /** With pairwise distinct starts the simultaneous edit does not depend on list order. */
  lemma SimultaneousPermutes(text: string, es: seq<Edit>, fs: seq<Edit>)
    requires DistinctStarts(es) && DistinctStarts(fs)
    requires forall e :: e in es <==> e in fs
    ensures Simultaneous(text, es) == Simultaneous(text, fs)
  {
    forall i: nat ensures Inserted(es, i) == Inserted(fs, i) {
      if e :| e in es && e.lo == i {
        InsertedUnique(es, e);
        InsertedUnique(fs, e);
      } else {
        NothingInserted(es, i);
        NothingInserted(fs, i);
      }
    }
    forall i | 0 <= i < |text| ensures At(text, es, i) == At(text, fs, i) {
    }
    EmittedAgrees(text, es, fs, |text|);
  }
}
