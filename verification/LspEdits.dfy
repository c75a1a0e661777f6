/** Text edits of a workspace edit: UTF-16 positions and the descending in-place loop
    of `apply_text_edits_to_path`. */
module LspEdits {
  import opened Text
  import opened Sorting
  import opened Splice

  datatype Position = Position(line: nat, character: nat)

  predicate Before(a: Position, b: Position) {
    a.line < b.line || (a.line == b.line && a.character < b.character)
  }

  datatype TextEdit = TextEdit(start: Position, end: Position, newText: string)

  /** A position that is not in the text is reported; a reversed range or an offset inside
      a character makes `replace_range` panic. */
  datatype EditError = PositionOutOfRange | ReplacePanics

  // ---------------------------------------------------------------- positions

  /** The position behind `c`, when `c` stands at `p`. */
  function Advance(p: Position, c: char): Position {
    if c == '\n' then Position(p.line + 1, 0) else Position(p.line, p.character + Utf16Width(c))
  }

  function Walk(p: Position, s: string): Position {
    if s == "" then p else Advance(Walk(p, s[..|s| - 1]), s[|s| - 1])
  }

  /** The position of offset `i`: complete lines before it, and UTF-16 units since. */
  function PosAt(text: string, i: nat): Position
    requires i <= |text|
  {
    Walk(Position(0, 0), text[..i])
  }

  lemma {:induction false} WalkConcat(p: Position, a: string, b: string)
    ensures Walk(p, a + b) == Walk(Walk(p, a), b)
  {
    if b == "" {
      assert a + b == a;
    } else {
      assert (a + b)[..|a + b| - 1] == a + b[..|b| - 1];
      WalkConcat(p, a, b[..|b| - 1]);
    }
  }

  lemma {:induction false} WalkForward(p: Position, s: string)
    requires s != ""
    ensures Before(p, Walk(p, s))
  {
    if |s| > 1 {
      WalkForward(p, s[..|s| - 1]);
    } else {
      assert s[..0] == "";
    }
  }

  /** Positions grow strictly with the offset. */
  lemma PosAtMonotone(text: string, i: nat, j: nat)
    requires i < j <= |text|
    ensures Before(PosAt(text, i), PosAt(text, j))
  {
    assert text[..j] == text[..i] + text[i..j];
    WalkConcat(Position(0, 0), text[..i], text[i..j]);
    WalkForward(PosAt(text, i), text[i..j]);
  }

  lemma PosAtStep(text: string, i: nat)
    requires i < |text|
    ensures PosAt(text, i + 1) == Advance(PosAt(text, i), text[i])
  {
    assert text[..i + 1][..i] == text[..i];
  }

  lemma OneMore(text: string, from: nat, n: nat, i: nat)
    requires from <= n && i == n + 1 <= |text|
    ensures text[from..i] == text[from..n] + [text[n]]
    ensures multiset(text[..i])['\n'] == multiset(text[..n])['\n'] + (if text[n] == '\n' then 1 else 0)
    ensures Utf16Len(text[from..i]) == Utf16Len(text[from..n]) + Utf16Width(text[n])
  {
    assert text[..i] == text[..n] + [text[n]];
    assert text[from..i] == text[from..n] + [text[n]];
    assert text[from..i][..n - from] == text[from..n];
  }

  /** The line is the number of line feeds before the offset, and the column the UTF-16 length of
      the text since the last one. */
  lemma {:induction false} PosAtExactly(text: string, lineStart: nat, i: nat)
    requires lineStart <= i <= |text| && (lineStart == 0 || text[lineStart - 1] == '\n')
    requires '\n' !in text[lineStart..i]
    ensures PosAt(text, i).line == multiset(text[..i])['\n']
    ensures PosAt(text, i).character == Utf16Len(text[lineStart..i])
    decreases i
  {
    if i > 0 {
      var n := i - 1;
      var start := if lineStart == i then LineStart(text, n) else lineStart;
      PosAtStep(text, n);
      OneMore(text, start, n, i);
      assert lineStart < i ==> text[n] in text[lineStart..i];
      PosAtExactly(text, start, n);
    }
  }

  /** Where the line of offset `i` begins. */
  function LineStart(text: string, i: nat): (k: nat)
    requires i <= |text|
    ensures k <= i && (k == 0 || text[k - 1] == '\n') && '\n' !in text[k..i]
  {
    if i == 0 || text[i - 1] == '\n' then i else
      var k := LineStart(text, i - 1);
      assert text[k..i] == text[k..i - 1] + [text[i - 1]];
      k
  }

  function ResolveFrom(text: string, pos: Position, i: nat): (r: Option<nat>)
    requires i <= |text|
    ensures r.Some? ==> i <= r.value <= |text| && PosAt(text, r.value) == pos
    ensures r.None? ==> forall j :: i <= j <= |text| ==> PosAt(text, j) != pos
    decreases |text| - i
  {
    if PosAt(text, i) == pos then Some(i)
    else if i == |text| then None
    else ResolveFrom(text, pos, i + 1)
  }

  /** The offset whose position is `pos`. */
  function Resolve(text: string, pos: Position): (r: Option<nat>)
    ensures r.Some? ==> r.value <= |text| && PosAt(text, r.value) == pos
    ensures r.None? ==> forall j :: 0 <= j <= |text| ==> PosAt(text, j) != pos
  {
    ResolveFrom(text, pos, 0)
  }

  /** Looking up a position is the exact inverse of `PosAt`. */
  lemma ResolveInverse(text: string, pos: Position, i: nat)
    requires i <= |text|
    ensures Resolve(text, pos) == Some(i) <==> PosAt(text, i) == pos
  {
    if PosAt(text, i) == pos {
      var r := Resolve(text, pos).value;
      if r < i {
        PosAtMonotone(text, r, i);
      } else if i < r {
        PosAtMonotone(text, i, r);
      }
    }
  }

  function ByteAt(text: string, i: nat): nat
    requires i <= |text|
  {
    Utf8Len(text[..i])
  }

  lemma ByteAtStep(text: string, i: nat)
    requires i < |text|
    ensures ByteAt(text, i + 1) == ByteAt(text, i) + Utf8Width(text[i])
  {
    assert text[..i + 1][..i] == text[..i];
  }

  /** `position_to_byte`: one pass that counts line feeds and, on the wanted line, UTF-16 units. */
  method PositionToByte(text: string, pos: Position) returns (r: Result<nat, EditError>)
    ensures r.Ok? <==> exists i :: 0 <= i <= |text| && PosAt(text, i) == pos
    ensures r == match Resolve(text, pos)
                 case Some(i) => Ok(ByteAt(text, i))
                 case None => Err(PositionOutOfRange)
  {
    var lineIdx, utf16Count, offset := 0, 0, 0;
    var i := 0;
    assert text[..0] == "";
    while i < |text|
      invariant i <= |text| && offset == ByteAt(text, i)
      invariant lineIdx == PosAt(text, i).line <= pos.line
      invariant utf16Count == if lineIdx == pos.line then PosAt(text, i).character else 0
      invariant forall j :: 0 <= j < i ==> PosAt(text, j) != pos
    {
      if lineIdx == pos.line {
        if utf16Count == pos.character {
          ResolveInverse(text, pos, i);
          return Ok(offset);
        }
        utf16Count := utf16Count + Utf16Width(text[i]);
      }
      PosAtStep(text, i);
      ByteAtStep(text, i);
      if text[i] == '\n' {
        lineIdx := lineIdx + 1;
        if lineIdx > pos.line {
          forall j | i < j <= |text| ensures PosAt(text, j) != pos {
            if i + 1 < j {
              PosAtMonotone(text, i + 1, j);
            }
          }
          break;
        }
        utf16Count := 0;
      }
      offset := offset + Utf8Width(text[i]);
      i := i + 1;
    }
    if lineIdx == pos.line && utf16Count == pos.character {
      ResolveInverse(text, pos, |text|);
      assert text[..|text|] == text;
      return Ok(Utf8Len(text));
    }
    return Err(PositionOutOfRange);
  }

  // ---------------------------------------------------------------- one edit

  function ScalarFrom(text: string, b: nat, i: nat): (r: Option<nat>)
    requires i <= |text|
    ensures r.Some? ==> i <= r.value <= |text| && ByteAt(text, r.value) == b
    ensures r.None? ==> forall j :: i <= j <= |text| ==> ByteAt(text, j) != b
    decreases |text| - i
  {
    if ByteAt(text, i) == b then Some(i)
    else if i == |text| then None
    else ScalarFrom(text, b, i + 1)
  }

  lemma ByteAtMonotone(text: string, i: nat, j: nat)
    requires i < j <= |text|
    ensures ByteAt(text, i) < ByteAt(text, j)
  {
    assert text[..j] == text[..i] + text[i..j];
    Utf8LenConcat(text[..i], text[i..j]);
  }

  /** `String::replace_range` on byte offsets. */
  function ReplaceRange(text: string, from: nat, to: nat, newText: string): Result<string, EditError> {
    var lo, hi := ScalarFrom(text, from, 0), ScalarFrom(text, to, 0);
    if from <= to && lo.Some? && hi.Some?
    then Ok(text[..lo.value] + newText + text[hi.value..])
    else Err(ReplacePanics)
  }

  lemma ReplaceRangeAt(text: string, lo: nat, hi: nat, newText: string)
    requires lo <= hi <= |text|
    ensures ReplaceRange(text, ByteAt(text, lo), ByteAt(text, hi), newText)
            == Ok(text[..lo] + newText + text[hi..])
  {
    if lo < hi {
      ByteAtMonotone(text, lo, hi);
    }
    var a, b := ScalarFrom(text, ByteAt(text, lo), 0), ScalarFrom(text, ByteAt(text, hi), 0);
    if a.value < lo { ByteAtMonotone(text, a.value, lo); }
    if lo < a.value { ByteAtMonotone(text, lo, a.value); }
    if b.value < hi { ByteAtMonotone(text, b.value, hi); }
    if hi < b.value { ByteAtMonotone(text, hi, b.value); }
  }

  function ApplyOne(text: string, e: TextEdit): Result<string, EditError> {
    match (Resolve(text, e.start), Resolve(text, e.end))
    case (Some(lo), Some(hi)) => ReplaceRange(text, ByteAt(text, lo), ByteAt(text, hi), e.newText)
    case (_, _) => Err(PositionOutOfRange)
  }

  /** One edit: an error if one of its positions is not in the text, a panic if its range is
      reversed, and else the replacement. */
  lemma ApplyOneExactly(text: string, e: TextEdit)
    ensures ApplyOne(text, e) == Err(PositionOutOfRange) <==>
              (forall i :: 0 <= i <= |text| ==> PosAt(text, i) != e.start)
              || (forall i :: 0 <= i <= |text| ==> PosAt(text, i) != e.end)
    ensures forall lo: nat, hi: nat ::
              lo <= |text| && hi <= |text| && PosAt(text, lo) == e.start && PosAt(text, hi) == e.end ==>
                ApplyOne(text, e) == if hi < lo then Err(ReplacePanics) else Ok(text[..lo] + e.newText + text[hi..])
  {
    forall lo: nat, hi: nat | lo <= |text| && hi <= |text| && PosAt(text, lo) == e.start && PosAt(text, hi) == e.end
      ensures ApplyOne(text, e) == if hi < lo then Err(ReplacePanics) else Ok(text[..lo] + e.newText + text[hi..])
    {
      ResolveInverse(text, e.start, lo);
      ResolveInverse(text, e.end, hi);
      if hi < lo {
        ByteAtMonotone(text, hi, lo);
      } else {
        ReplaceRangeAt(text, lo, hi, e.newText);
      }
    }
  }

  function ApplyInOrder(text: string, es: seq<TextEdit>): Result<string, EditError>
    decreases |es|
  {
    if es == [] then Ok(text) else
      match ApplyOne(text, es[0])
      case Ok(t) => ApplyInOrder(t, es[1..])
      case Err(e) => Err(e)
  }

  /** The comparison of the sort: descending start. */
  predicate NotBefore(a: TextEdit, b: TextEdit) {
    !Before(a.start, b.start)
  }

  function Apply(text: string, es: seq<TextEdit>): Result<string, EditError> {
    ApplyInOrder(text, Sort(es, NotBefore))
  }

  /** The loop of `apply_text_edits_to_path`: every range is looked up in the text as
      changed so far. */
  method ApplyTextEdits(original: string, edits: seq<TextEdit>) returns (r: Result<string, EditError>)
    ensures r == Apply(original, edits)
  {
    var text := original;
    var sorted := Sort(edits, NotBefore);
    var k := 0;
    while k < |sorted|
      invariant k <= |sorted|
      invariant ApplyInOrder(original, sorted) == ApplyInOrder(text, sorted[k..])
    {
      var e := sorted[k];
      assert sorted[k..][1..] == sorted[k + 1..];
      var from := PositionToByte(text, e.start);
      if from.Err? { return Err(from.error); }
      var to := PositionToByte(text, e.end);
      if to.Err? { return Err(to.error); }
      var replaced := ReplaceRange(text, from.value, to.value, e.newText);
      if replaced.Err? { return replaced; }
      text := replaced.value;
      k := k + 1;
    }
    return Ok(text);
  }

  // ---------------------------------------------------------------- all edits

  /** `r` is the range of `e` in `text`. */
  predicate Denotes(text: string, e: TextEdit, r: Edit) {
    && r.lo <= |text| && PosAt(text, r.lo) == e.start
    && r.hi <= |text| && PosAt(text, r.hi) == e.end
    && r.text == e.newText
  }

  predicate DenoteAll(text: string, es: seq<TextEdit>, rs: seq<Edit>) {
    |es| == |rs| && forall k :: 0 <= k < |es| ==> Denotes(text, es[k], rs[k])
  }

  predicate Descending(rs: seq<Edit>, h: nat) {
    && (forall k :: 0 <= k < |rs| ==> rs[k].lo <= rs[k].hi <= h)
    && (forall a, b :: 0 <= a < b < |rs| ==> rs[b].hi <= rs[a].lo)
  }

  /** Descending edits applied to `text[..h]`, all ranges taken in the original text. */
  function SplicedDown(text: string, rs: seq<Edit>, h: nat): string
    requires h <= |text| && Descending(rs, h)
  {
    if rs == [] then text[..h] else
      SplicedDown(text, rs[1..], rs[0].lo) + rs[0].text + text[rs[0].hi..h]
  }

  function Reverse<T>(s: seq<T>): (r: seq<T>)
    ensures |r| == |s|
    ensures forall i :: 0 <= i < |s| ==> r[i] == s[|s| - 1 - i]
  {
    seq(|s|, i requires 0 <= i < |s| => s[|s| - 1 - i])
  }

  lemma {:induction false} SplicedDownIsSpliced(text: string, rs: seq<Edit>, h: nat)
    requires h <= |text| && Descending(rs, h)
    ensures Ascending(Reverse(rs), h)
    ensures SplicedDown(text, rs, h) == Spliced(text, Reverse(rs), h)
  {
    if rs != [] {
      SplicedDownIsSpliced(text, rs[1..], rs[0].lo);
      assert Reverse(rs)[..|rs| - 1] == Reverse(rs[1..]);
    }
  }

  lemma Shorten(text: string, other: string, k: nat, h: nat)
    requires k <= h <= |text| && h <= |other| && text[..h] == other[..h]
    ensures text[..k] == other[..k] && text[k..h] == other[k..h]
  {
  }

  lemma {:induction false} SplicedDownPrefix(text: string, other: string, rs: seq<Edit>, h: nat)
    requires h <= |text| && h <= |other| && text[..h] == other[..h] && Descending(rs, h)
    ensures SplicedDown(text, rs, h) == SplicedDown(other, rs, h)
  {
    if rs != [] {
      Shorten(text, other, rs[0].lo, h);
      Shorten(text, other, rs[0].hi, h);
      SplicedDownPrefix(text, other, rs[1..], rs[0].lo);
    }
  }

  lemma SplicedDownExtend(text: string, rs: seq<Edit>, h: nat)
    requires h <= |text| && Descending(rs, h)
    ensures SplicedDown(text, rs, |text|) == SplicedDown(text, rs, h) + text[h..]
  {
  }

  lemma ApplyOneAt(text: string, e: TextEdit, r: Edit)
    requires Denotes(text, e, r) && r.lo <= r.hi
    ensures ApplyOne(text, e) == Ok(text[..r.lo] + r.text + text[r.hi..])
  {
    ResolveInverse(text, e.start, r.lo);
    ResolveInverse(text, e.end, r.hi);
    ReplaceRangeAt(text, r.lo, r.hi, r.text);
  }

  /** An edit leaves every range below its start alone. */
  lemma DenotesKept(text: string, other: string, h: nat, e: TextEdit, r: Edit)
    requires h <= |text| && h <= |other| && text[..h] == other[..h]
    requires Denotes(text, e, r) && r.lo <= h && r.hi <= h
    ensures Denotes(other, e, r)
  {
    Shorten(text, other, r.lo, h);
    Shorten(text, other, r.hi, h);
  }

  function Replaced(text: string, r: Edit): string
    requires r.lo <= r.hi <= |text|
  {
    text[..r.lo] + r.text + text[r.hi..]
  }

  /** The remaining edits do the same to the text as changed by the first one. */
  lemma RestSpliced(text: string, rs: seq<Edit>)
    requires rs != [] && Descending(rs, |text|)
    ensures var next := Replaced(text, rs[0]);
            rs[0].lo <= |next| && Descending(rs[1..], |next|)
            && SplicedDown(next, rs[1..], |next|) == SplicedDown(text, rs, |text|)
  {
    var r, below, next := rs[0], rs[1..], Replaced(text, rs[0]);
    assert next[..r.lo] == text[..r.lo];
    SplicedDownExtend(next, below, r.lo);
    SplicedDownPrefix(text, next, below, r.lo);
    assert next[r.lo..] == r.text + text[r.hi..];
    Assoc(SplicedDown(text, below, r.lo), r.text, text[r.hi..]);
  }

  lemma RestDenotes(text: string, es: seq<TextEdit>, rs: seq<Edit>)
    requires DenoteAll(text, es, rs) && rs != [] && Descending(rs, |text|)
    ensures DenoteAll(Replaced(text, rs[0]), es[1..], rs[1..])
  {
    var next := Replaced(text, rs[0]);
    assert next[..rs[0].lo] == text[..rs[0].lo];
    forall k | 0 <= k < |rs| - 1 ensures Denotes(next, es[1..][k], rs[1..][k]) {
      DenotesKept(text, next, rs[0].lo, es[k + 1], rs[k + 1]);
    }
  }

  /** The in-place loop on edits that descend and do not overlap. */
  lemma {:induction false} InOrderIsSpliced(text: string, es: seq<TextEdit>, rs: seq<Edit>)
    requires DenoteAll(text, es, rs) && Descending(rs, |text|)
    ensures ApplyInOrder(text, es) == Ok(SplicedDown(text, rs, |text|))
    decreases |es|
  {
    if es == [] {
      assert text[..|text|] == text;
    } else {
      ApplyOneAt(text, es[0], rs[0]);
      RestSpliced(text, rs);
      RestDenotes(text, es, rs);
      InOrderIsSpliced(Replaced(text, rs[0]), es[1..], rs[1..]);
    }
  }

  // ---------------------------------------------------------------- the sort

  predicate Resolvable(text: string, es: seq<TextEdit>) {
    forall k :: 0 <= k < |es| ==> Resolve(text, es[k].start).Some? && Resolve(text, es[k].end).Some?
  }

  /** The ranges of the edits in the original text. */
  function Ranges(text: string, es: seq<TextEdit>): (rs: seq<Edit>)
    requires Resolvable(text, es)
    ensures DenoteAll(text, es, rs)
  {
    seq(|es|, k requires 0 <= k < |es| =>
      Edit(Resolve(text, es[k].start).value, Resolve(text, es[k].end).value, es[k].newText))
  }

  /** Ranges that are not reversed and do not overlap. */
  predicate Disjoint(rs: seq<Edit>) {
    (forall i :: 0 <= i < |rs| ==> rs[i].lo <= rs[i].hi) && PairwiseDisjoint(rs)
  }

  /** An edit that shares its start with an earlier one is a pure insertion. */
  predicate TiesInsert(rs: seq<Edit>) {
    forall i, j :: 0 <= i < j < |rs| && rs[i].lo == rs[j].lo ==> rs[j].hi == rs[j].lo
  }

  /** The same sort, on ranges. */
  predicate NotBelow(a: Edit, b: Edit) {
    b.lo <= a.lo
  }

  /** Comparing positions is comparing offsets. */
  lemma SameOrder(text: string, e: TextEdit, r: Edit, f: TextEdit, s: Edit)
    requires Denotes(text, e, r) && Denotes(text, f, s)
    ensures NotBefore(e, f) <==> NotBelow(r, s)
  {
    if r.lo < s.lo {
      PosAtMonotone(text, r.lo, s.lo);
    } else if s.lo < r.lo {
      PosAtMonotone(text, s.lo, r.lo);
    }
  }

  lemma {:induction false} InsertDenotes(text: string, e: TextEdit, r: Edit, es: seq<TextEdit>, rs: seq<Edit>)
    requires Denotes(text, e, r) && DenoteAll(text, es, rs)
    ensures DenoteAll(text, Insert(e, es, NotBefore), Insert(r, rs, NotBelow))
  {
    if es != [] {
      SameOrder(text, e, r, es[0], rs[0]);
      if !NotBefore(e, es[0]) {
        InsertDenotes(text, e, r, es[1..], rs[1..]);
      }
    }
  }

  /** Sorting the edits sorts their ranges. */
  lemma {:induction false} SortDenotes(text: string, es: seq<TextEdit>, rs: seq<Edit>)
    requires DenoteAll(text, es, rs)
    ensures DenoteAll(text, Sort(es, NotBefore), Sort(rs, NotBelow))
  {
    if es != [] {
      SortDenotes(text, es[1..], rs[1..]);
      InsertDenotes(text, es[0], rs[0], Sort(es[1..], NotBefore), Sort(rs[1..], NotBelow));
    }
  }

  lemma DescendingCons(r: Edit, rs: seq<Edit>, h: nat)
    requires Descending(rs, h) && r.lo <= r.hi <= h
    requires forall k :: 0 <= k < |rs| ==> rs[k].hi <= r.lo
    ensures Descending([r] + rs, h)
  {
  }

  /** Putting one more range into a descending list. */
  lemma {:induction false} InsertDescends(r: Edit, rs: seq<Edit>, h: nat)
    requires Descending(rs, h) && r.lo <= r.hi <= h
    requires forall k :: 0 <= k < |rs| ==> r.hi <= rs[k].lo || rs[k].hi <= r.lo
    requires forall k :: 0 <= k < |rs| && rs[k].lo == r.lo ==> rs[k].hi == r.lo
    ensures Descending(Insert(r, rs, NotBelow), h)
  {
    if rs == [] || NotBelow(r, rs[0]) {
      assert forall k :: 0 <= k < |rs| ==> rs[k].hi <= r.lo;
      DescendingCons(r, rs, h);
    } else {
      var rest := rs[1..];
      InsertDescends(r, rest, h);
      var t := Insert(r, rest, NotBelow);
      InsertKeepsElements(r, rest, NotBelow);
      forall k | 0 <= k < |t| ensures t[k].hi <= rs[0].lo {
        assert t[k] in t;
      }
      DescendingCons(rs[0], t, h);
    }
  }

  lemma {:induction false} SortDescends(rs: seq<Edit>, h: nat)
    requires Disjoint(rs) && TiesInsert(rs)
    requires forall k :: 0 <= k < |rs| ==> rs[k].hi <= h
    ensures Descending(Sort(rs, NotBelow), h)
  {
    if rs != [] {
      var t := Sort(rs[1..], NotBelow);
      SortDescends(rs[1..], h);
      SortKeepsElements(rs[1..], NotBelow);
      forall k | 0 <= k < |t|
        ensures rs[0].hi <= t[k].lo || t[k].hi <= rs[0].lo
        ensures t[k].lo == rs[0].lo ==> t[k].hi == rs[0].lo
      {
        assert t[k] in rs[1..];
        var j :| 1 <= j < |rs| && rs[j] == t[k];
      }
      InsertDescends(rs[0], t, h);
    }
  }

  function StartsAt(i: nat): Edit -> bool {
    (r: Edit) => r.lo == i
  }

  lemma {:induction false} InsertedFiltered(rs: seq<Edit>, i: nat)
    ensures Inserted(Reverse(rs), i) == Inserted(Reverse(Filter(rs, StartsAt(i))), i)
  {
    if rs != [] {
      var r, rest := rs[0], rs[1..];
      InsertedFiltered(rest, i);
      assert rs == [r] + rest;
      ReversedCons(r, rest);
      InsertedSnoc(Reverse(rest), r, i);
      var f := Filter(rest, StartsAt(i));
      FilterCons(r, rest, StartsAt(i));
      if r.lo == i {
        ReversedCons(r, f);
        InsertedSnoc(Reverse(f), r, i);
      } else {
        assert Filter(rs, StartsAt(i)) == f;
      }
    }
  }

  lemma ReversedCons(r: Edit, rs: seq<Edit>)
    ensures Reverse([r] + rs) == Reverse(rs) + [r]
  {
  }

  lemma ReverseElements<T>(s: seq<T>, x: T)
    ensures x in Reverse(s) <==> x in s
  {
    var r := Reverse(s);
    if x in s {
      var k :| 0 <= k < |s| && s[k] == x;
      assert r[|s| - 1 - k] == x;
    }
    if x in r {
      var k :| 0 <= k < |s| && r[k] == x;
    }
  }

  lemma SortKeepsEmitted(text: string, rs: seq<Edit>)
    ensures Simultaneous(text, Reverse(Sort(rs, NotBelow))) == Simultaneous(text, Reverse(rs))
  {
    var a, b := Reverse(Sort(rs, NotBelow)), Reverse(rs);
    SortKeepsElements(rs, NotBelow);
    forall r ensures r in a <==> r in b {
      ReverseElements(Sort(rs, NotBelow), r);
      ReverseElements(rs, r);
    }
    forall i: nat ensures Inserted(a, i) == Inserted(b, i) {
      SortStable(rs, NotBelow, StartsAt(i));
      InsertedFiltered(rs, i);
      InsertedFiltered(Sort(rs, NotBelow), i);
    }
    forall i | 0 <= i < |text| ensures At(text, a, i) == At(text, b, i) {
    }
    EmittedAgrees(text, a, b, |text|);
  }

  /** The loop computes the simultaneous edit, with the texts that share a start in
      reverse array order. */
  lemma LoopIsReversedSimultaneous(text: string, es: seq<TextEdit>)
    requires Resolvable(text, es) && Disjoint(Ranges(text, es)) && TiesInsert(Ranges(text, es))
    ensures Apply(text, es) == Ok(Simultaneous(text, Reverse(Ranges(text, es))))
  {
    var rs := Ranges(text, es);
    var down := Sort(rs, NotBelow);
    SortDenotes(text, es, rs);
    SortDescends(rs, |text|);
    InOrderIsSpliced(text, Sort(es, NotBefore), down);
    SplicedDownIsSpliced(text, down, |text|);
    SplicedIsSimultaneous(text, Reverse(down), |text|);
    SortKeepsEmitted(text, rs);
  }

  /** With pairwise distinct starts the in-place loop never fails and yields exactly the
      simultaneous edit of the original text, whatever the array order. */
  lemma LoopIsSimultaneous(text: string, es: seq<TextEdit>)
    requires Resolvable(text, es) && Disjoint(Ranges(text, es)) && DistinctStarts(Ranges(text, es))
    ensures Apply(text, es) == Ok(Simultaneous(text, Ranges(text, es)))
  {
    var rs := Ranges(text, es);
    LoopIsReversedSimultaneous(text, es);
    forall r ensures r in Reverse(rs) <==> r in rs {
      ReverseElements(rs, r);
    }
    SimultaneousPermutes(text, rs, Reverse(rs));
  }

  /** For arrays whose equal starts are insertions, the loop agrees with the array order
      that the protocol asks for exactly when, at every offset, the inserted texts read the
      same in both orders. */
  lemma TiesAgreeExactly(text: string, es: seq<TextEdit>)
    requires Resolvable(text, es) && Disjoint(Ranges(text, es)) && TiesInsert(Ranges(text, es))
    ensures Apply(text, es) == Ok(Simultaneous(text, Ranges(text, es)))
            <==> forall i :: 0 <= i <= |text| ==>
                   Inserted(Ranges(text, es), i) == Inserted(Reverse(Ranges(text, es)), i)
  {
    LoopIsReversedSimultaneous(text, es);
    ReversedSimultaneous(text, Ranges(text, es));
  }

  lemma ReversedShape(rs: seq<Edit>, i: nat)
    ensures SameShape(rs, Reverse(rs), i)
  {
    ReversedLength(rs, i);
    forall r ensures r in Reverse(rs) <==> r in rs {
      ReverseElements(rs, r);
    }
  }

  lemma ReversedSimultaneous(text: string, rs: seq<Edit>)
    ensures Simultaneous(text, Reverse(rs)) == Simultaneous(text, rs)
            <==> forall i :: 0 <= i <= |text| ==> Inserted(rs, i) == Inserted(Reverse(rs), i)
  {
    forall i: nat ensures SameShape(rs, Reverse(rs), i) {
      ReversedShape(rs, i);
    }
    SameSimultaneous(text, rs, Reverse(rs));
  }

  lemma SameSimultaneous(text: string, es: seq<Edit>, fs: seq<Edit>)
    requires forall i: nat :: SameShape(es, fs, i)
    ensures Simultaneous(text, fs) == Simultaneous(text, es)
            <==> forall i :: 0 <= i <= |text| ==> Inserted(es, i) == Inserted(fs, i)
  {
    var h := |text|;
    EmittedApart(text, es, fs, h);
    SplitEqual(Emitted(text, es, h), Inserted(es, h), Emitted(text, fs, h), Inserted(fs, h));
    assert (forall i :: 0 <= i <= h ==> Inserted(es, i) == Inserted(fs, i))
      <==> (forall i :: 0 <= i < h ==> Inserted(es, i) == Inserted(fs, i)) && Inserted(es, h) == Inserted(fs, h);
  }

  lemma {:induction false} InsertedCons(e: Edit, es: seq<Edit>, i: nat)
    ensures Inserted([e] + es, i) == (if e.lo == i then e.text else "") + Inserted(es, i)
  {
    if es != [] {
      var n := |es| - 1;
      InsertedCons(e, es[..n], i);
      assert ([e] + es)[..|es|] == [e] + es[..n];
    } else {
      assert [e] + es == [] + [e];
      InsertedSnoc([], e, i);
    }
  }

  lemma {:induction false} ReversedLength(es: seq<Edit>, i: nat)
    ensures |Inserted(Reverse(es), i)| == |Inserted(es, i)|
  {
    if es != [] {
      var n := |es| - 1;
      ReversedLength(es[..n], i);
      assert Reverse(es) == [es[n]] + Reverse(es[..n]);
      InsertedCons(es[n], Reverse(es[..n]), i);
    }
  }

  predicate SameShape(es: seq<Edit>, fs: seq<Edit>, i: nat) {
    |Inserted(es, i)| == |Inserted(fs, i)| && Covered(es, i) == Covered(fs, i)
  }

  lemma AtApart(text: string, es: seq<Edit>, fs: seq<Edit>, i: nat)
    requires i < |text| && SameShape(es, fs, i)
    ensures |At(text, es, i)| == |At(text, fs, i)|
    ensures At(text, es, i) == At(text, fs, i) <==> Inserted(es, i) == Inserted(fs, i)
  {
    var kept := if Covered(es, i) then "" else [text[i]];
    SplitEqual(Inserted(es, i), kept, Inserted(fs, i), kept);
  }

  /** Results whose inserted texts have equal lengths differ as soon as one of them differs. */
  lemma {:induction false} EmittedApart(text: string, es: seq<Edit>, fs: seq<Edit>, h: nat)
    requires h <= |text|
    requires forall i :: 0 <= i < h ==> SameShape(es, fs, i)
    ensures |Emitted(text, es, h)| == |Emitted(text, fs, h)|
    ensures Emitted(text, es, h) == Emitted(text, fs, h)
            <==> forall i :: 0 <= i < h ==> Inserted(es, i) == Inserted(fs, i)
  {
    if h > 0 {
      EmittedApart(text, es, fs, h - 1);
      AtApart(text, es, fs, h - 1);
      SplitEqual(Emitted(text, es, h - 1), At(text, es, h - 1), Emitted(text, fs, h - 1), At(text, fs, h - 1));
    }
  }

  lemma SplitEqual(a: string, b: string, c: string, d: string)
    requires |a| == |c|
    ensures a + b == c + d <==> a == c && b == d
  {
    if a + b == c + d {
      assert a == (a + b)[..|a|] && c == (c + d)[..|c|];
      assert b == (a + b)[|a|..] && d == (c + d)[|c|..];
    }
  }

  lemma OnOneLine(s: string)
    requires |s| == 1 && Utf16Width(s[0]) == 1 && s[0] != '\n'
    ensures Walk(Position(0, 0), s) == Position(0, 1)
  {
  }

  /** Two insertions at one offset come out in reverse array order. */
  lemma TiesCanDisagree()
    ensures var at := Position(0, 0);
            var es := [TextEdit(at, at, "A"), TextEdit(at, at, "B")];
            Apply("", es) == Ok("BA") && Simultaneous("", [Edit(0, 0, "A"), Edit(0, 0, "B")]) == "AB"
  {
    var at := Position(0, 0);
    var a, b := TextEdit(at, at, "A"), TextEdit(at, at, "B");
    assert Sort([b], NotBefore) == [b] && [a, b][1..] == [b];
    assert Sort([a, b], NotBefore) == [a, b];
    ApplyOneAt("", a, Edit(0, 0, "A"));
    ApplyOneAt("A", b, Edit(0, 0, "B"));
    assert ""[..0] + "A" + ""[0..] == "A" && "A"[..0] + "B" + "A"[0..] == "BA";
    assert [a, b][1..][1..] == [];
    var rs := [Edit(0, 0, "A"), Edit(0, 0, "B")];
    assert rs == [Edit(0, 0, "A")] + [Edit(0, 0, "B")];
    InsertedSnoc([Edit(0, 0, "A")], Edit(0, 0, "B"), 0);
    assert [Edit(0, 0, "A")] == [] + [Edit(0, 0, "A")];
    InsertedSnoc([], Edit(0, 0, "A"), 0);
  }
}
