/** Hash-anchored edits: the uniqueness scan, the sorted splice of `apply_blocks`, and the
    line-ending treatment of `apply_patch`.

    `hash` stands for the shortened BLAKE3 digest; nothing is assumed of it. Offsets count
    characters where the source counts bytes. */
module Hashline {
  import opened Text
  import opened Sorting
  import opened Splice

  datatype Block = Block(expectedHash: string, oldText: string, newText: string)

  datatype HashlineError = NoBlocks | HashMismatch | AnchorNotUnique | BlocksOverlap

  // ---------------------------------------------------------------- the uniqueness scan

  /** Where `match_indices` goes on after a match. */
  function Resume(needle: string, pos: nat): nat {
    if needle == "" then pos + 1 else pos + |needle|
  }

  function Second(content: string, needle: string, pos: nat): Option<nat> {
    if Resume(needle, pos) <= |content| then Find(content, needle, Resume(needle, pos)) else None
  }

  function FindUnique(content: string, needle: string): Option<nat> {
    match Find(content, needle, 0)
    case None => None
    case Some(pos) => if Second(content, needle, pos).Some? then None else Some(pos)
  }

  /** `find_unique_position`: counts the non-overlapping matches and gives up at two. */
  method FindUniquePosition(content: string, needle: string) returns (r: Option<nat>)
    ensures r == FindUnique(content, needle)
  {
    var count := 0;
    var pos: Option<nat> := None;
    var found := Find(content, needle, 0);
    while found.Some?
      invariant count <= 1
      invariant count == 0 ==> pos == None && found == Find(content, needle, 0)
      invariant count == 1 ==> pos.Some? && pos == Find(content, needle, 0)
                               && found == Second(content, needle, pos.value)
      decreases 2 - count
    {
      count := count + 1;
      if count > 1 {
        return None;
      }
      pos := found;
      found := Second(content, needle, found.value);
    }
    return pos;
  }

  /** The scan succeeds exactly when the anchor occurs and no two occurrences are disjoint.
      It returns the leftmost occurrence, which every other occurrence overlaps. */
  lemma UniqueExactly(content: string, needle: string)
    requires needle != ""
    ensures var r := FindUnique(content, needle);
            && (r.Some? <==>
                && (exists i :: 0 <= i <= |content| && OccursAt(content, needle, i))
                && (forall i, j :: 0 <= i < j && OccursAt(content, needle, i) && OccursAt(content, needle, j)
                      ==> j < i + |needle|))
            && (r.Some? ==> OccursAt(content, needle, r.value)
                            && forall j :: 0 <= j && OccursAt(content, needle, j) ==> r.value <= j < r.value + |needle|)
  {
  }

  lemma UniqueEmpty(content: string)
    ensures FindUnique(content, "") == if content == "" then Some(0) else None
  {
  }

  // ---------------------------------------------------------------- applying blocks

  function EditOf(content: string, b: Block): Edit
    requires FindUnique(content, b.oldText).Some?
  {
    var pos := FindUnique(content, b.oldText).value;
    Edit(pos, pos + |b.oldText|, b.newText)
  }

  predicate Matches(hash: string -> string, content: string, b: Block) {
    hash(b.oldText) == b.expectedHash && FindUnique(content, b.oldText).Some?
  }

  predicate AllMatch(hash: string -> string, content: string, blocks: seq<Block>) {
    forall i :: 0 <= i < |blocks| ==> Matches(hash, content, blocks[i])
  }

  /** The ranges of the blocks, in block order. */
  function EditsOf(hash: string -> string, content: string, blocks: seq<Block>): (es: seq<Edit>)
    requires AllMatch(hash, content, blocks)
    ensures |es| == |blocks|
    ensures forall i :: 0 <= i < |blocks| ==> es[i] == EditOf(content, blocks[i])
  {
    seq(|blocks|, i requires 0 <= i < |blocks| => EditOf(content, blocks[i]))
  }

  function Locate(hash: string -> string, content: string, blocks: seq<Block>): Result<seq<Edit>, HashlineError> {
    if blocks == [] then Ok([]) else
      var b := blocks[0];
      if hash(b.oldText) != b.expectedHash then Err(HashMismatch)
      else if FindUnique(content, b.oldText).None? then Err(AnchorNotUnique)
      else Prepended([EditOf(content, b)], Locate(hash, content, blocks[1..]))
  }

  predicate ByStart(a: Edit, b: Edit) {
    a.lo <= b.lo
  }

  function ApplyBlocks(hash: string -> string, content: string, blocks: seq<Block>): Result<string, HashlineError> {
    match Locate(hash, content, blocks)
    case Err(e) => Err(e)
    case Ok(es) =>
      var sorted := Sort(es, ByStart);
      if Ascending(sorted, |content|) then Ok(Spliced(content, sorted, |content|)) else Err(BlocksOverlap)
  }

  lemma {:induction false} LocateAll(hash: string -> string, content: string, blocks: seq<Block>)
    ensures Locate(hash, content, blocks).Ok? <==> AllMatch(hash, content, blocks)
    ensures AllMatch(hash, content, blocks) ==>
              Locate(hash, content, blocks) == Ok(EditsOf(hash, content, blocks))
  {
    if blocks != [] {
      LocateAll(hash, content, blocks[1..]);
      if AllMatch(hash, content, blocks) {
        assert EditsOf(hash, content, blocks) == [EditOf(content, blocks[0])] + EditsOf(hash, content, blocks[1..]);
      } else if Matches(hash, content, blocks[0]) {
        assert !AllMatch(hash, content, blocks[1..]);
      }
    }
  }

  lemma SpliceStep(content: string, es: seq<Edit>, k: nat, cursor: nat)
    requires k < |es| && Ascending(es[..k], cursor) && cursor <= es[k].lo <= es[k].hi <= |content|
    ensures Ascending(es[..k + 1], es[k].hi)
    ensures Spliced(content, es[..k + 1], es[k].hi)
            == Spliced(content, es[..k], cursor) + content[cursor..es[k].lo] + es[k].text
  {
    var e := es[k];
    SplicedExtend(content, es[..k], cursor, e.lo);
    assert es[..k + 1][..k] == es[..k];
    assert content[e.hi..e.hi] == "";
  }

  /** The second loop of `apply_blocks`. */
  method SpliceSorted(content: string, es: seq<Edit>) returns (r: Result<string, HashlineError>)
    requires forall i :: 0 <= i < |es| ==> es[i].lo <= es[i].hi <= |content|
    ensures r == if Ascending(es, |content|) then Ok(Spliced(content, es, |content|)) else Err(BlocksOverlap)
  {
    var out, cursor, lastEnd := "", 0, 0;
    var k := 0;
    while k < |es|
      invariant k <= |es| && cursor == lastEnd == (if k == 0 then 0 else es[k - 1].hi)
      invariant cursor <= |content| && Ascending(es[..k], cursor)
      invariant out == Spliced(content, es[..k], cursor)
    {
      var e := es[k];
      if e.lo < lastEnd {
        return Err(BlocksOverlap);
      }
      SpliceStep(content, es, k, cursor);
      out := out + content[cursor..e.lo];
      out := out + e.text;
      cursor := e.hi;
      lastEnd := cursor;
      k := k + 1;
    }
    assert es[..|es|] == es;
    assert content[cursor..] == content[cursor..|content|];
    SplicedExtend(content, es, cursor, |content|);
    return Ok(out + content[cursor..]);
  }

  lemma LocateFrom(hash: string -> string, content: string, blocks: seq<Block>, i: nat)
    requires i < |blocks|
    ensures var b := blocks[i];
            Locate(hash, content, blocks[i..])
            == if hash(b.oldText) != b.expectedHash then Err(HashMismatch)
               else if FindUnique(content, b.oldText).None? then Err(AnchorNotUnique)
               else Prepended([EditOf(content, b)], Locate(hash, content, blocks[i + 1..]))
  {
    assert blocks[i..][1..] == blocks[i + 1..];
  }

  /** The first loop of `apply_blocks`. */
  method LocateBlocks(hash: string -> string, content: string, blocks: seq<Block>) returns (r: Result<seq<Edit>, HashlineError>)
    ensures r == Locate(hash, content, blocks)
  {
    var positions: seq<Edit> := [];
    assert blocks[0..] == blocks;
    PrependedNothing(Locate(hash, content, blocks));
    for i := 0 to |blocks|
      invariant Locate(hash, content, blocks) == Prepended(positions, Locate(hash, content, blocks[i..]))
    {
      LocateFrom(hash, content, blocks, i);
      var b := blocks[i];
      if hash(b.oldText) != b.expectedHash {
        return Err(HashMismatch);
      }
      var pos := FindUniquePosition(content, b.oldText);
      if pos.None? {
        return Err(AnchorNotUnique);
      }
      var e := Edit(pos.value, pos.value + |b.oldText|, b.newText);
      PrependedConcat(positions, [e], Locate(hash, content, blocks[i + 1..]));
      positions := positions + [e];
    }
    assert positions + [] == positions;
    return Ok(positions);
  }

  function Prepended(es: seq<Edit>, r: Result<seq<Edit>, HashlineError>): Result<seq<Edit>, HashlineError> {
    match r case Ok(fs) => Ok(es + fs) case Err(e) => Err(e)
  }

  lemma PrependedNothing(r: Result<seq<Edit>, HashlineError>)
    ensures Prepended([], r) == r
  {
    if r.Ok? {
      assert [] + r.value == r.value;
    }
  }

  lemma PrependedConcat(a: seq<Edit>, b: seq<Edit>, r: Result<seq<Edit>, HashlineError>)
    ensures Prepended(a, Prepended(b, r)) == Prepended(a + b, r)
  {
    if r.Ok? {
      Assoc(a, b, r.value);
    }
  }

  lemma {:induction false} LocateInside(hash: string -> string, content: string, blocks: seq<Block>)
    requires Locate(hash, content, blocks).Ok?
    ensures var es := Locate(hash, content, blocks).value;
            forall i :: 0 <= i < |es| ==> es[i].lo <= es[i].hi <= |content|
  {
    LocateAll(hash, content, blocks);
  }

  method ApplyAllBlocks(hash: string -> string, content: string, blocks: seq<Block>) returns (r: Result<string, HashlineError>)
    ensures r == ApplyBlocks(hash, content, blocks)
  {
    var located := LocateBlocks(hash, content, blocks);
    if located.Err? {
      return Err(located.error);
    }
    var sorted := Sort(located.value, ByStart);
    LocateInside(hash, content, blocks);
    SortKeepsElements(located.value, ByStart);
    forall i | 0 <= i < |sorted| ensures sorted[i].lo <= sorted[i].hi <= |content| {
      assert sorted[i] in located.value;
    }
    r := SpliceSorted(content, sorted);
  }

  // ---------------------------------------------------------------- what it computes

  predicate NonEmpty(es: seq<Edit>) {
    forall i :: 0 <= i < |es| ==> es[i].lo < es[i].hi
  }

  lemma DisjointElements(es: seq<Edit>, a: Edit, b: Edit)
    requires PairwiseDisjoint(es) && a in es && b in es && a != b
    ensures a.hi <= b.lo || b.hi <= a.lo
  {
  }

  lemma AscendingCons(e: Edit, es: seq<Edit>, h: nat)
    requires Ascending(es, h) && e.lo <= e.hi <= h
    requires forall k :: 0 <= k < |es| ==> e.hi <= es[k].lo
    ensures Ascending([e] + es, h)
  {
  }

  lemma {:induction false} InsertAscends(e: Edit, es: seq<Edit>, h: nat)
    requires Ascending(es, h) && NonEmpty(es) && e.lo < e.hi <= h
    requires forall i :: 0 <= i < |es| ==> e.hi <= es[i].lo || es[i].hi <= e.lo
    ensures Ascending(Insert(e, es, ByStart), h)
  {
    if es == [] || ByStart(e, es[0]) {
      AscendingCons(e, es, h);
    } else {
      var rest := es[1..];
      InsertAscends(e, rest, h);
      var t := Insert(e, rest, ByStart);
      InsertKeepsElements(e, rest, ByStart);
      forall k | 0 <= k < |t| ensures es[0].hi <= t[k].lo {
        assert t[k] in t;
      }
      AscendingCons(es[0], t, h);
    }
  }

  /** Non-empty disjoint ranges, once sorted, follow each other. */
  lemma {:induction false} SortAscends(es: seq<Edit>, h: nat)
    requires PairwiseDisjoint(es) && NonEmpty(es) && forall i :: 0 <= i < |es| ==> es[i].hi <= h
    ensures Ascending(Sort(es, ByStart), h)
  {
    if es != [] {
      var t := Sort(es[1..], ByStart);
      SortAscends(es[1..], h);
      SortKeepsElements(es[1..], ByStart);
      forall k | 0 <= k < |t|
        ensures es[0].hi <= t[k].lo || t[k].hi <= es[0].lo
        ensures t[k].lo < t[k].hi
      {
        assert t[k] in es[1..];
        var j :| 1 <= j < |es| && es[j] == t[k];
      }
      InsertAscends(es[0], t, h);
    }
  }

  /** Disjointness does not depend on the order of the ranges. */
  lemma DisjointPermutes(es: seq<Edit>, fs: seq<Edit>)
    requires multiset(es) == multiset(fs)
    requires NonEmpty(es) && PairwiseDisjoint(es)
    ensures PairwiseDisjoint(fs)
  {
    forall i, j | 0 <= i < j < |es| ensures es[i] != es[j] {
    }
    DistinctPermutes(es, fs);
    forall i, j | 0 <= i < j < |fs| ensures fs[i].hi <= fs[j].lo || fs[j].hi <= fs[i].lo {
      assert fs[i] in multiset(es) && fs[j] in multiset(es);
      DisjointElements(es, fs[i], fs[j]);
    }
  }

  lemma SortedNonEmpty(es: seq<Edit>)
    requires NonEmpty(es)
    ensures NonEmpty(Sort(es, ByStart))
  {
    var t := Sort(es, ByStart);
    SortKeepsElements(es, ByStart);
    forall k | 0 <= k < |t| ensures t[k].lo < t[k].hi {
      assert t[k] in es;
    }
  }

  lemma DisjointStartsDistinct(es: seq<Edit>)
    requires PairwiseDisjoint(es) && NonEmpty(es)
    ensures DistinctStarts(es)
  {
  }

  lemma EmptyAnchors(hash: string -> string, blocks: seq<Block>)
    requires AllMatch(hash, "", blocks)
    ensures forall i :: 0 <= i < |blocks| ==> EditsOf(hash, "", blocks)[i].lo == EditsOf(hash, "", blocks)[i].hi == 0
  {
  }

  /** On an empty file every anchor is empty and the sort keeps the block order. */
  lemma EmptyResult(es: seq<Edit>)
    requires forall i :: 0 <= i < |es| ==> es[i].lo == es[i].hi == 0
    ensures Ascending(Sort(es, ByStart), 0) && PairwiseDisjoint(es)
    ensures Spliced("", Sort(es, ByStart), 0) == Simultaneous("", es)
  {
    SortSorted(es, ByStart);
    SplicedIsSimultaneous("", es, 0);
  }

  lemma NonEmptyAnchors(hash: string -> string, content: string, blocks: seq<Block>)
    requires content != "" && AllMatch(hash, content, blocks)
    ensures NonEmpty(EditsOf(hash, content, blocks))
    ensures forall i :: 0 <= i < |blocks| ==> EditsOf(hash, content, blocks)[i].hi <= |content|
  {
  }

  /** Success exactly when every hash matches, every anchor passes the scan and the ranges
      are disjoint; the result is then the simultaneous edit of the file. */
  lemma ApplyExactly(hash: string -> string, content: string, blocks: seq<Block>)
    ensures ApplyBlocks(hash, content, blocks).Ok? <==>
              AllMatch(hash, content, blocks) && PairwiseDisjoint(EditsOf(hash, content, blocks))
    ensures ApplyBlocks(hash, content, blocks).Ok? ==>
              ApplyBlocks(hash, content, blocks) == Ok(Simultaneous(content, EditsOf(hash, content, blocks)))
  {
    LocateAll(hash, content, blocks);
    if AllMatch(hash, content, blocks) {
      var es := EditsOf(hash, content, blocks);
      if content == "" {
        EmptyAnchors(hash, blocks);
        EmptyResult(es);
      } else {
        NonEmptyAnchors(hash, content, blocks);
        SortedResult(content, es);
      }
    }
  }

  lemma SortedResult(content: string, es: seq<Edit>)
    requires NonEmpty(es) && forall i :: 0 <= i < |es| ==> es[i].hi <= |content|
    ensures Ascending(Sort(es, ByStart), |content|) <==> PairwiseDisjoint(es)
    ensures PairwiseDisjoint(es) ==>
              Spliced(content, Sort(es, ByStart), |content|) == Simultaneous(content, es)
  {
    var sorted := Sort(es, ByStart);
    SortPermutes(es, ByStart);
    SortedNonEmpty(es);
    if Ascending(sorted, |content|) {
      DisjointPermutes(sorted, es);
    }
    if PairwiseDisjoint(es) {
      SortAscends(es, |content|);
      SplicedIsSimultaneous(content, sorted, |content|);
      SortKeepsElements(es, ByStart);
      DisjointStartsDistinct(es);
      DisjointStartsDistinct(sorted);
      SimultaneousPermutes(content, sorted, es);
    }
  }

  /** With non-empty anchors the order of the blocks does not matter. */
  lemma ApplyPermutes(hash: string -> string, content: string, blocks: seq<Block>, others: seq<Block>)
    requires multiset(blocks) == multiset(others)
    requires forall b :: b in blocks ==> b.oldText != ""
    ensures ApplyBlocks(hash, content, blocks).Ok? <==> ApplyBlocks(hash, content, others).Ok?
    ensures ApplyBlocks(hash, content, blocks).Ok? ==>
              ApplyBlocks(hash, content, blocks) == ApplyBlocks(hash, content, others)
  {
    forall b ensures b in blocks <==> b in others {
      assert b in blocks <==> b in multiset(blocks);
      assert b in others <==> b in multiset(others);
    }
    if ApplyBlocks(hash, content, blocks).Ok? {
      PermutedOk(hash, content, blocks, others);
    }
    if ApplyBlocks(hash, content, others).Ok? {
      PermutedOk(hash, content, others, blocks);
    }
  }

  lemma PermutedMatch(hash: string -> string, content: string, blocks: seq<Block>, others: seq<Block>)
    requires AllMatch(hash, content, blocks) && forall b :: b in others ==> b in blocks
    ensures AllMatch(hash, content, others)
    ensures forall e :: e in EditsOf(hash, content, others) ==> e in EditsOf(hash, content, blocks)
  {
    forall i | 0 <= i < |others| ensures Matches(hash, content, others[i]) {
      assert others[i] in blocks;
      var j :| 0 <= j < |blocks| && blocks[j] == others[i];
    }
    var es, fs := EditsOf(hash, content, blocks), EditsOf(hash, content, others);
    forall e | e in fs ensures e in es {
      var i :| 0 <= i < |fs| && fs[i] == e;
      assert others[i] in blocks;
      var j :| 0 <= j < |blocks| && blocks[j] == others[i];
      assert es[j] == e;
    }
  }

  lemma DisjointBlocks(hash: string -> string, content: string, blocks: seq<Block>, x: Block, y: Block)
    requires AllMatch(hash, content, blocks) && PairwiseDisjoint(EditsOf(hash, content, blocks))
    requires x in blocks && y in blocks && x != y
    requires Matches(hash, content, x) && Matches(hash, content, y)
    ensures EditOf(content, x).hi <= EditOf(content, y).lo || EditOf(content, y).hi <= EditOf(content, x).lo
  {
  }

  lemma DistinctBlocks(hash: string -> string, content: string, blocks: seq<Block>)
    requires AllMatch(hash, content, blocks)
    requires NonEmpty(EditsOf(hash, content, blocks)) && PairwiseDisjoint(EditsOf(hash, content, blocks))
    ensures Distinct(blocks)
  {
  }

  lemma PermutedDisjoint(hash: string -> string, content: string, blocks: seq<Block>, others: seq<Block>)
    requires multiset(blocks) == multiset(others) && forall b :: b in others ==> b in blocks
    requires AllMatch(hash, content, blocks) && AllMatch(hash, content, others)
    requires NonEmpty(EditsOf(hash, content, blocks)) && PairwiseDisjoint(EditsOf(hash, content, blocks))
    ensures PairwiseDisjoint(EditsOf(hash, content, others))
  {
    var fs := EditsOf(hash, content, others);
    DistinctBlocks(hash, content, blocks);
    DistinctPermutes(blocks, others);
    forall i, j | 0 <= i < j < |fs| ensures fs[i].hi <= fs[j].lo || fs[j].hi <= fs[i].lo {
      DisjointBlocks(hash, content, blocks, others[i], others[j]);
    }
  }

  lemma PermutedOk(hash: string -> string, content: string, blocks: seq<Block>, others: seq<Block>)
    requires multiset(blocks) == multiset(others)
    requires forall b :: b in blocks <==> b in others
    requires forall b :: b in blocks ==> b.oldText != ""
    requires ApplyBlocks(hash, content, blocks).Ok?
    ensures ApplyBlocks(hash, content, others) == ApplyBlocks(hash, content, blocks)
  {
    ApplyExactly(hash, content, blocks);
    ApplyExactly(hash, content, others);
    PermutedMatch(hash, content, blocks, others);
    PermutedMatch(hash, content, others, blocks);
    var es, fs := EditsOf(hash, content, blocks), EditsOf(hash, content, others);
    forall i | 0 <= i < |blocks| ensures es[i].lo < es[i].hi {
      assert blocks[i] in blocks;
    }
    forall i | 0 <= i < |others| ensures fs[i].lo < fs[i].hi {
      assert others[i] in blocks;
    }
    PermutedDisjoint(hash, content, blocks, others);
    DisjointStartsDistinct(es);
    DisjointStartsDistinct(fs);
    SimultaneousPermutes(content, es, fs);
  }

  // ---------------------------------------------------------------- line endings

  /** `replace("\r\n", "\n")`. */
  function Normalize(s: string): string
    decreases |s|
  {
    if s == "" then ""
    else if |s| >= 2 && s[0] == '\r' && s[1] == '\n' then "\n" + Normalize(s[2..])
    else [s[0]] + Normalize(s[1..])
  }

  function RestoreChar(c: char): string {
    if c == '\n' then "\r\n" else [c]
  }

  /** `replace('\n', "\r\n")`. */
  function Restore(s: string): (r: string)
    ensures |s| <= |r|
  {
    if s == "" then "" else RestoreChar(s[0]) + Restore(s[1..])
  }

  predicate ContainsCrlf(s: string) {
    exists i :: 0 <= i < |s| - 1 && s[i] == '\r' && s[i + 1] == '\n'
  }

  /** Every line feed follows a carriage return. */
  predicate CrlfClean(s: string) {
    forall i :: 0 <= i < |s| && s[i] == '\n' ==> i > 0 && s[i - 1] == '\r'
  }

  function MaybeRestore(s: string, wasCrlf: bool): string {
    if wasCrlf then Restore(s) else s
  }

  /** `apply_patch` behind the parser, up to the text that is written: a patch without blocks
      is refused before the file is read. */
  function PatchContent(hash: string -> string, content: string, blocks: seq<Block>): Result<string, HashlineError> {
    if blocks == [] then Err(NoBlocks) else
      match ApplyBlocks(hash, Normalize(content), blocks)
      case Err(e) => Err(e)
      case Ok(s) => Ok(MaybeRestore(s, ContainsCrlf(content)))
  }

  lemma {:induction false} RestoreConcat(a: string, b: string)
    ensures Restore(a + b) == Restore(a) + Restore(b)
  {
    if a == "" {
      assert a + b == b;
    } else {
      assert (a + b)[0] == a[0] && (a + b)[1..] == a[1..] + b;
      RestoreConcat(a[1..], b);
      Assoc(RestoreChar(a[0]), Restore(a[1..]), Restore(b));
    }
  }

  lemma {:induction false} RestoreNormalize(s: string)
    requires CrlfClean(s)
    ensures Restore(Normalize(s)) == s
    decreases |s|
  {
    if s == "" {
    } else if |s| >= 2 && s[0] == '\r' && s[1] == '\n' {
      forall i | 0 <= i < |s[2..]| && s[2..][i] == '\n' ensures i > 0 && s[2..][i - 1] == '\r' {
        assert s[i + 2] == '\n';
      }
      RestoreNormalize(s[2..]);
      assert ("\n" + Normalize(s[2..]))[1..] == Normalize(s[2..]);
      assert s == "\r\n" + s[2..];
    } else {
      forall i | 0 <= i < |s[1..]| && s[1..][i] == '\n' ensures i > 0 && s[1..][i - 1] == '\r' {
        assert s[i + 1] == '\n';
      }
      RestoreNormalize(s[1..]);
      assert s[0] != '\n';
      assert ([s[0]] + Normalize(s[1..]))[1..] == Normalize(s[1..]);
    }
  }

  lemma {:induction false} RestoredClean(s: string)
    ensures CrlfClean(Restore(s))
  {
    if s != "" {
      RestoredClean(s[1..]);
    }
  }

  lemma {:induction false} NormalizePlain(s: string)
    requires !ContainsCrlf(s)
    ensures Normalize(s) == s
  {
    if s != "" {
      assert !(|s| >= 2 && s[0] == '\r' && s[1] == '\n');
      forall i | 0 <= i < |s[1..]| - 1 ensures !(s[1..][i] == '\r' && s[1..][i + 1] == '\n') {
        assert s[1..][i] == s[i + 1] && s[1..][i + 1] == s[(i + 1) + 1];
      }
      NormalizePlain(s[1..]);
    }
  }

  /** The line-ending treatment gives the file back exactly when the file does not mix
      line endings. */
  lemma RestoredExactly(s: string)
    ensures MaybeRestore(Normalize(s), ContainsCrlf(s)) == s <==> CrlfClean(s) || !ContainsCrlf(s)
  {
    if CrlfClean(s) { RestoreNormalize(s); }
    if !ContainsCrlf(s) { NormalizePlain(s); }
    RestoredClean(Normalize(s));
  }

  // ---------------------------------------------------------------- verification

  /** `verify_patch` checks hashes and anchors, but not overlap. */
  function VerifyBlocks(hash: string -> string, content: string, blocks: seq<Block>): Option<HashlineError> {
    if blocks == [] then None
    else if hash(blocks[0].oldText) != blocks[0].expectedHash then Some(HashMismatch)
    else if FindUnique(content, blocks[0].oldText).None? then Some(AnchorNotUnique)
    else VerifyBlocks(hash, content, blocks[1..])
  }

  lemma {:induction false} VerifyIsLocate(hash: string -> string, content: string, blocks: seq<Block>)
    ensures VerifyBlocks(hash, content, blocks)
            == match Locate(hash, content, blocks) case Ok(_) => None case Err(e) => Some(e)
  {
    if blocks != [] {
      VerifyIsLocate(hash, content, blocks[1..]);
    }
  }

  /** What verification finds is what applying reports. If it finds nothing, the patch is
      applied exactly when it has a block and no two of its ranges overlap. */
  lemma VerifyPredictsApply(hash: string -> string, content: string, blocks: seq<Block>)
    ensures match VerifyBlocks(hash, Normalize(content), blocks)
            case Some(e) => PatchContent(hash, content, blocks) == Err(e)
            case None =>
              && AllMatch(hash, Normalize(content), blocks)
              && (PatchContent(hash, content, blocks).Ok?
                  <==> blocks != [] && PairwiseDisjoint(EditsOf(hash, Normalize(content), blocks)))
              && (PatchContent(hash, content, blocks).Err? ==>
                  PatchContent(hash, content, blocks).error == if blocks == [] then NoBlocks else BlocksOverlap)
  {
    VerifyIsLocate(hash, Normalize(content), blocks);
    LocateAll(hash, Normalize(content), blocks);
    ApplyExactly(hash, Normalize(content), blocks);
  }

  /** A block that matches, given twice, verifies and is refused. */
  lemma RepeatedBlockRefused(hash: string -> string, content: string, b: Block)
    requires Matches(hash, Normalize(content), b) && b.oldText != ""
    ensures VerifyBlocks(hash, Normalize(content), [b, b]) == None
    ensures PatchContent(hash, content, [b, b]) == Err(BlocksOverlap)
  {
    VerifyIsLocate(hash, Normalize(content), [b, b]);
    LocateAll(hash, Normalize(content), [b, b]);
    var es := EditsOf(hash, Normalize(content), [b, b]);
    assert es[0].lo < es[0].hi && es[1] == es[0];
    VerifyPredictsApply(hash, content, [b, b]);
  }

  /** The first block that does not match decides the error: its hash if that is wrong, and else
      its anchor. */
  lemma {:induction false} FirstFailure(hash: string -> string, content: string, blocks: seq<Block>, i: nat)
    requires i < |blocks| && AllMatch(hash, content, blocks[..i])
    requires hash(blocks[i].oldText) != blocks[i].expectedHash || FindUnique(content, blocks[i].oldText).None?
    ensures ApplyBlocks(hash, content, blocks)
            == Err(if hash(blocks[i].oldText) != blocks[i].expectedHash then HashMismatch else AnchorNotUnique)
  {
    if i > 0 {
      var rest, n := blocks[1..], i - 1;
      var front := rest[..n];
      assert blocks[..i][0] == blocks[0] && Matches(hash, content, blocks[..i][0]);
      forall k | 0 <= k < n ensures Matches(hash, content, front[k]) {
        assert front[k] == blocks[..i][k + 1];
      }
      FirstFailure(hash, content, rest, n);
    }
  }
}
