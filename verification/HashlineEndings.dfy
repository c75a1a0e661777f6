/** What a patch does to a file with its own line endings.

    A patch is applied to the text with every "\r\n" replaced by "\n". If the file held a
    "\r\n", every "\n" of the result then becomes "\r\n". */
module HashlineEndings {
  import opened Text
  import opened Sorting
  import opened Splice
  import opened Hashline

  // ---------------------------------------------------------------- places

  predicate StartsCrlf(s: string) {
    |s| >= 2 && s[0] == '\r' && s[1] == '\n'
  }

  /** Where the first `i` characters of the normalised text end in the file. */
  function Place(s: string, i: nat): (p: nat)
    requires i <= |Normalize(s)|
    ensures p <= |s|
    decreases |s|
  {
    if i == 0 then 0
    else if StartsCrlf(s) then 2 + Place(s[2..], i - 1)
    else 1 + Place(s[1..], i - 1)
  }

  /** A place never lies between the two characters of a line ending. */
  predicate Whole(s: string, p: nat) {
    !(0 < p < |s| && s[p - 1] == '\r' && s[p] == '\n')
  }

  /** The characters of `s` that make the first one of the normalised text. */
  function HeadLength(s: string): nat {
    if StartsCrlf(s) then 2 else 1
  }

  /** The first character of the normalised text, in front of a text that goes on where it ended. */
  lemma NormalizeHead(s: string, n: nat, more: string)
    requires s != "" && n == HeadLength(s) && more <= s[n..]
    ensures Normalize(s[..n] + more) == [Normalize(s)[0]] + Normalize(more)
  {
    var t := s[..n] + more;
    assert t[n..] == more;
    assert StartsCrlf(t) <==> StartsCrlf(s);
  }

  lemma NormalizeTail(s: string, n: nat)
    requires s != "" && n == HeadLength(s)
    ensures Normalize(s) == [Normalize(s)[0]] + Normalize(s[n..])
  {
  }

  lemma PlaceStep(s: string, n: nat, i: nat)
    requires 0 < i <= |Normalize(s)| && n == HeadLength(s)
    ensures n <= |s| && i - 1 <= |Normalize(s[n..])| && Place(s, i) == n + Place(s[n..], i - 1)
  {
  }

  lemma {:induction false} PlaceFront(s: string, i: nat)
    requires i <= |Normalize(s)|
    ensures Normalize(s[..Place(s, i)]) == Normalize(s)[..i]
    decreases |s|
  {
    if i > 0 {
      var n := HeadLength(s);
      var rest := s[n..];
      PlaceStep(s, n, i);
      PlaceFront(rest, i - 1);
      var p := Place(rest, i - 1);
      assert s[..n + p] == s[..n] + rest[..p];
      NormalizeHead(s, n, rest[..p]);
      NormalizeTail(s, n);
      FrontOfCons(Normalize(s)[0], Normalize(rest), i);
    }
  }

  lemma FrontOfCons(c: char, s: string, i: nat)
    requires 0 < i <= |s| + 1
    ensures ([c] + s)[..i] == [c] + s[..i - 1] && ([c] + s)[i..] == s[i - 1..]
  {
  }

  lemma {:induction false} PlaceBack(s: string, i: nat)
    requires i <= |Normalize(s)|
    ensures Normalize(s[Place(s, i)..]) == Normalize(s)[i..]
    decreases |s|
  {
    if i == 0 {
      assert s[0..] == s && Normalize(s)[0..] == Normalize(s);
    } else {
      var n := HeadLength(s);
      var rest := s[n..];
      PlaceStep(s, n, i);
      PlaceBack(rest, i - 1);
      var p := Place(rest, i - 1);
      assert s[n + p..] == rest[p..];
      NormalizeTail(s, n);
      FrontOfCons(Normalize(s)[0], Normalize(rest), i);
    }
  }

  lemma {:induction false} PlaceWhole(s: string, i: nat)
    requires i <= |Normalize(s)|
    ensures Whole(s, Place(s, i))
    decreases |s|
  {
    if i > 0 {
      var n := HeadLength(s);
      PlaceStep(s, n, i);
      PlaceWhole(s[n..], i - 1);
      var p := Place(s[n..], i - 1);
      assert 0 < p < |s[n..]| ==> s[n..][p - 1] == s[n + p - 1] && s[n..][p] == s[n + p];
    }
  }

  /** Places grow with the offset. */
  lemma {:induction false} PlaceMonotone(s: string, i: nat, j: nat)
    requires i < j <= |Normalize(s)|
    ensures Place(s, i) < Place(s, j)
    decreases |s|
  {
    if i > 0 {
      var n := HeadLength(s);
      PlaceStep(s, n, i);
      PlaceStep(s, n, j);
      PlaceMonotone(s[n..], i - 1, j - 1);
    }
  }

  lemma {:induction false} PlaceEnd(s: string)
    ensures Place(s, |Normalize(s)|) == |s|
    decreases |s|
  {
    if s != "" {
      var n := HeadLength(s);
      NormalizeTail(s, n);
      PlaceStep(s, n, |Normalize(s)|);
      PlaceEnd(s[n..]);
    }
  }

  /** A stretch of the file and the stretch of the normalised text that it becomes. */
  lemma PlaceSlice(s: string, i: nat, j: nat, a: nat, b: nat)
    requires i <= j <= |Normalize(s)| && a == Place(s, i) && b == Place(s, j)
    ensures a <= b && Normalize(s[a..b]) == Normalize(s)[i..j]
  {
    if i < j {
      PlaceMonotone(s, i, j);
    }
    var front := s[..b];
    PlaceFront(s, j);
    PlaceOfFront(s, i, j);
    PlaceBack(front, i);
    assert front[a..] == s[a..b];
  }

  lemma FrontHead(s: string, n: nat, more: string, front: string)
    requires s != "" && n == HeadLength(s) && more <= s[n..] && front == s[..n] + more
    ensures front != "" && HeadLength(front) == n && front[n..] == more
  {
  }

  lemma {:induction false} PlaceOfFront(s: string, i: nat, j: nat)
    requires i <= j <= |Normalize(s)|
    ensures i <= |Normalize(s[..Place(s, j)])| && Place(s[..Place(s, j)], i) == Place(s, i)
    decreases |s|
  {
    PlaceFront(s, j);
    if i > 0 {
      var n := HeadLength(s);
      var rest := s[n..];
      PlaceStep(s, n, i);
      PlaceStep(s, n, j);
      PlaceOfFront(rest, i - 1, j - 1);
      var more, front := rest[..Place(rest, j - 1)], s[..Place(s, j)];
      FrontHead(s, n, more, front);
      PlaceStep(front, n, i);
    }
  }

  // ---------------------------------------------------------------- edits in the file

  predicate Inside(content: string, es: seq<Edit>) {
    forall i :: 0 <= i < |es| ==> es[i].lo <= |Normalize(content)| && es[i].hi <= |Normalize(content)|
  }

  function InFile(content: string, e: Edit): Edit
    requires e.lo <= |Normalize(content)| && e.hi <= |Normalize(content)|
  {
    Edit(Place(content, e.lo), Place(content, e.hi), Restore(e.text))
  }

  /** The edits as they apply to the file with its own line endings. */
  function AllInFile(content: string, es: seq<Edit>): (r: seq<Edit>)
    requires Inside(content, es)
    ensures |r| == |es|
    ensures forall i :: 0 <= i < |es| ==> r[i] == InFile(content, es[i])
  {
    seq(|es|, i requires 0 <= i < |es| => InFile(content, es[i]))
  }

  lemma PlaceOrdered(s: string, i: nat, j: nat)
    requires i <= j <= |Normalize(s)|
    ensures Place(s, i) <= Place(s, j)
  {
    if i < j {
      PlaceMonotone(s, i, j);
    }
  }

  lemma InFileAscends(content: string, es: seq<Edit>, h: nat)
    requires h <= |Normalize(content)| && Ascending(es, h)
    ensures Inside(content, es) && Ascending(AllInFile(content, es), Place(content, h))
  {
    forall i | 0 <= i < |es| ensures Place(content, es[i].lo) <= Place(content, es[i].hi) <= Place(content, h) {
      PlaceOrdered(content, es[i].lo, es[i].hi);
      PlaceOrdered(content, es[i].hi, h);
    }
    forall i, j | 0 <= i < j < |es| ensures Place(content, es[i].hi) <= Place(content, es[j].lo) {
      PlaceOrdered(content, es[i].hi, es[j].lo);
    }
  }

  lemma InFileFront(content: string, es: seq<Edit>, n: nat)
    requires Inside(content, es) && n <= |es|
    ensures Inside(content, es[..n]) && AllInFile(content, es)[..n] == AllInFile(content, es[..n])
  {
  }

  // ---------------------------------------------------------------- what is kept

  lemma CleanHead(s: string, n: nat)
    requires s != "" && n == HeadLength(s)
    ensures CrlfClean(s) <==> s[0] != '\n' && CrlfClean(s[n..])
  {
    var rest := s[n..];
    assert forall i :: 0 <= i < |rest| ==> rest[i] == s[n + i];
    if CrlfClean(s) {
      forall i | 0 <= i < |rest| && rest[i] == '\n' ensures i > 0 && rest[i - 1] == '\r' {
        assert s[n + i] == '\n';
      }
    }
    if s[0] != '\n' && CrlfClean(rest) {
      forall i | 0 <= i < |s| && s[i] == '\n' ensures i > 0 && s[i - 1] == '\r' {
        if i >= n {
          assert rest[i - n] == '\n';
        }
      }
    }
  }

  /** Normalising and restoring never shortens a text, and lengthens it exactly when it has a
      lone line feed. */
  lemma {:induction false} RestoreLengthens(s: string)
    ensures |Restore(Normalize(s))| >= |s|
    ensures |Restore(Normalize(s))| == |s| <==> CrlfClean(s)
    decreases |s|
  {
    if s != "" {
      var n := HeadLength(s);
      var rest := Normalize(s[n..]);
      NormalizeTail(s, n);
      CleanHead(s, n);
      RestoreLengthens(s[n..]);
      RestoreConcat([Normalize(s)[0]], rest);
      RestoreOne(Normalize(s)[0]);
    }
  }

  lemma RestoreOne(c: char)
    ensures Restore([c]) == RestoreChar(c)
  {
    assert [c][1..] == "";
  }

  /** What `full` shows of a file text `kept`: at least as much, and nothing else exactly
      when `clean`. */
  predicate Shows(full: string, kept: string, clean: bool) {
    |full| >= |kept| && (|full| == |kept| <==> clean) && (clean ==> full == kept)
  }

  lemma ShowsEqual(full: string, kept: string, clean: bool)
    requires Shows(full, kept, clean)
    ensures full == kept <==> clean
  {
  }

  lemma ShowsStretch(content: string, i: nat, j: nat, a: nat, b: nat)
    requires i <= j <= |Normalize(content)| && a == Place(content, i) && b == Place(content, j)
    ensures a <= b && Shows(Restore(Normalize(content)[i..j]), content[a..b], CrlfClean(content[a..b]))
  {
    PlaceSlice(content, i, j, a, b);
    RestoreLengthens(content[a..b]);
    if CrlfClean(content[a..b]) {
      RestoreNormalize(content[a..b]);
    }
  }

  lemma ShowsAround(f: string, k: string, c: bool, x: string, g: string, l: string, d: bool)
    requires Shows(f, k, c) && Shows(g, l, d)
    ensures Shows(f + x + g, k + x + l, c && d)
  {
  }

  /** The text outside the ranges of the edits, up to the place of `h`, has no lone line feed. */
  predicate OutsideClean(content: string, es: seq<Edit>, h: nat)
    requires h <= |Normalize(content)| && Ascending(es, h)
  {
    if es == [] then CrlfClean(content[..Place(content, h)]) else
      var e := es[|es| - 1];
      PlaceOrdered(content, e.hi, h);
      && OutsideClean(content, es[..|es| - 1], e.lo)
      && CrlfClean(content[Place(content, e.hi)..Place(content, h)])
  }

  lemma {:induction false} RestoreSpliced(content: string, es: seq<Edit>, h: nat)
    requires h <= |Normalize(content)| && Ascending(es, h)
    ensures Inside(content, es) && Ascending(AllInFile(content, es), Place(content, h))
    ensures Shows(Restore(Spliced(Normalize(content), es, h)),
                  Spliced(content, AllInFile(content, es), Place(content, h)), OutsideClean(content, es, h))
  {
    var text, b := Normalize(content), Place(content, h);
    InFileAscends(content, es, h);
    if es == [] {
      ShowsStretch(content, 0, h, 0, b);
      assert text[0..h] == text[..h] && content[0..b] == content[..b];
    } else {
      var n := |es| - 1;
      var e, front := es[n], es[..n];
      SplicedLast(text, es, h, front);
      RestoreSpliced(content, front, e.lo);
      InFileFront(content, es, n);
      SplicedLast(content, AllInFile(content, es), b, AllInFile(content, front));
      var left := Spliced(text, front, e.lo);
      RestoreConcat(left + e.text, text[e.hi..h]);
      RestoreConcat(left, e.text);
      ShowsStretch(content, e.hi, h, Place(content, e.hi), b);
      ShowsAround(Restore(left), Spliced(content, AllInFile(content, front), Place(content, e.lo)), OutsideClean(content, front, e.lo),
                  Restore(e.text),
                  Restore(text[e.hi..h]), content[Place(content, e.hi)..b], CrlfClean(content[Place(content, e.hi)..b]));
    }
  }

  // ---------------------------------------------------------------- lone line feeds

  predicate Lone(s: string, p: nat) {
    p < |s| && s[p] == '\n' && !(p > 0 && s[p - 1] == '\r')
  }

  lemma CleanStretch(s: string, a: nat, b: nat)
    requires a <= b <= |s| && Whole(s, a)
    ensures CrlfClean(s[a..b]) <==> forall p: nat :: a <= p < b ==> !Lone(s, p)
  {
    var t := s[a..b];
    assert forall i :: 0 <= i < |t| ==> t[i] == s[a + i];
    if CrlfClean(t) {
      forall p: nat | a <= p < b ensures !Lone(s, p) {
        assert t[p - a] == s[p];
      }
    }
    if forall p: nat :: a <= p < b ==> !Lone(s, p) {
      forall i | 0 <= i < |t| && t[i] == '\n' ensures i > 0 && t[i - 1] == '\r' {
        assert !Lone(s, a + i);
      }
    }
  }

  /** Every lone line feed before `b` lies in the range of an edit. */
  predicate LoneCovered(content: string, es: seq<Edit>, b: nat) {
    forall p: nat :: p < b && Lone(content, p) ==> Covered(es, p)
  }

  lemma LoneCoveredSnoc(content: string, es: seq<Edit>, r: Edit, b: nat)
    requires Ascending(es + [r], b) && r.lo <= r.hi <= b && Ascending(es, r.lo)
    ensures LoneCovered(content, es + [r], b) <==>
            LoneCovered(content, es, r.lo) && forall p: nat :: r.hi <= p < b ==> !Lone(content, p)
  {
    forall p: nat ensures Covered(es + [r], p) <==> Covered(es, p) || r.lo <= p < r.hi {
      CoveredSnoc(es, r, p);
    }
    forall p: nat | r.lo <= p ensures !Covered(es, p) {
      forall e | e in es ensures e.hi <= r.lo {
      }
    }
  }

  lemma LoneStep(content: string, es: seq<Edit>, r: Edit, all: seq<Edit>, b: nat)
    requires all == es + [r] && Ascending(all, b) && r.lo <= r.hi <= b <= |content| && Ascending(es, r.lo) && Whole(content, r.hi)
    ensures LoneCovered(content, all, b) <==> LoneCovered(content, es, r.lo) && CrlfClean(content[r.hi..b])
  {
    LoneCoveredSnoc(content, es, r, b);
    CleanStretch(content, r.hi, b);
  }

  lemma InFileLast(content: string, es: seq<Edit>, h: nat, front: seq<Edit>, e: Edit)
    requires h <= |Normalize(content)| && Ascending(es, h) && es == front + [e]
    ensures Inside(content, es) && Inside(content, front) && Ascending(front, e.lo) && e.lo <= e.hi <= h
    ensures AllInFile(content, es) == AllInFile(content, front) + [InFile(content, e)]
    ensures Ascending(AllInFile(content, front), Place(content, e.lo))
    ensures Ascending(AllInFile(content, es), Place(content, h))
    ensures Place(content, e.lo) <= Place(content, e.hi) <= Place(content, h)
  {
    assert es[|front|] == e && es[..|front|] == front;
    assert forall i :: 0 <= i < |front| ==> es[i] == front[i];
    InFileAscends(content, es, h);
    InFileAscends(content, front, e.lo);
    PlaceOrdered(content, e.lo, e.hi);
    PlaceOrdered(content, e.hi, h);
  }

  lemma {:induction false} OutsideCleanMeans(content: string, es: seq<Edit>, h: nat)
    requires h <= |Normalize(content)| && Ascending(es, h)
    ensures Inside(content, es)
    ensures OutsideClean(content, es, h) <==> LoneCovered(content, AllInFile(content, es), Place(content, h))
  {
    var b := Place(content, h);
    InFileAscends(content, es, h);
    if es == [] {
      CleanStretch(content, 0, b);
      assert content[0..b] == content[..b];
    } else {
      var e, front := es[|es| - 1], es[..|es| - 1];
      assert es == front + [e];
      InFileLast(content, es, h, front, e);
      OutsideCleanMeans(content, front, e.lo);
      PlaceWhole(content, e.hi);
      LoneStep(content, AllInFile(content, front), InFile(content, e), AllInFile(content, es), b);
    }
  }

  // ---------------------------------------------------------------- patches

  lemma InFileElements(content: string, es: seq<Edit>, fs: seq<Edit>)
    requires Inside(content, es) && Inside(content, fs) && forall e :: e in es ==> e in fs
    ensures forall e :: e in AllInFile(content, es) ==> e in AllInFile(content, fs)
  {
    var rs, ss := AllInFile(content, es), AllInFile(content, fs);
    forall e | e in rs ensures e in ss {
      var i :| 0 <= i < |rs| && rs[i] == e;
      assert es[i] in es;
      var j :| 0 <= j < |fs| && fs[j] == es[i];
      assert ss[j] == e;
    }
  }

  lemma InFileDistinct(content: string, es: seq<Edit>)
    requires NonEmpty(es) && PairwiseDisjoint(es) && Inside(content, es)
    ensures DistinctStarts(AllInFile(content, es))
  {
    var rs := AllInFile(content, es);
    forall i, j | 0 <= i < j < |rs| ensures rs[i].lo != rs[j].lo {
      if es[i].lo < es[j].lo {
        PlaceMonotone(content, es[i].lo, es[j].lo);
      } else {
        PlaceMonotone(content, es[j].lo, es[i].lo);
      }
    }
  }

  lemma CoveredPermutes(es: seq<Edit>, fs: seq<Edit>)
    requires forall e :: e in es ==> e in fs
    ensures forall p: nat :: Covered(es, p) ==> Covered(fs, p)
  {
  }

  /** The sorted edits stand for the edits in their own order. */
  lemma SortedInFile(content: string, es: seq<Edit>, sorted: seq<Edit>)
    requires NonEmpty(es) && PairwiseDisjoint(es) && Inside(content, es) && sorted == Sort(es, ByStart)
    ensures Inside(content, sorted)
    ensures Simultaneous(content, AllInFile(content, sorted)) == Simultaneous(content, AllInFile(content, es))
    ensures forall p: nat :: Covered(AllInFile(content, sorted), p) <==> Covered(AllInFile(content, es), p)
  {
    SortKeepsElements(es, ByStart);
    forall i | 0 <= i < |sorted| ensures sorted[i].lo <= |Normalize(content)| && sorted[i].hi <= |Normalize(content)| {
      assert sorted[i] in es;
    }
    SortedNonEmpty(es);
    SortPermutes(es, ByStart);
    DisjointPermutes(es, sorted);
    var rs, ss := AllInFile(content, es), AllInFile(content, sorted);
    InFileElements(content, es, sorted);
    InFileElements(content, sorted, es);
    InFileDistinct(content, es);
    InFileDistinct(content, sorted);
    SimultaneousPermutes(content, ss, rs);
    CoveredPermutes(rs, ss);
    CoveredPermutes(ss, rs);
  }

  lemma RestoredExactlyAround(content: string, es: seq<Edit>)
    requires NonEmpty(es) && PairwiseDisjoint(es) && Inside(content, es)
    ensures Restore(Simultaneous(Normalize(content), es)) == Simultaneous(content, AllInFile(content, es))
            <==> LoneCovered(content, AllInFile(content, es), |content|)
  {
    var text, sorted := Normalize(content), Sort(es, ByStart);
    var h := |text|;
    SortedResult(text, es);
    SortedInFile(content, es, sorted);
    RestoreSpliced(content, sorted, h);
    PlaceEnd(content);
    OutsideCleanMeans(content, sorted, h);
    SplicedIsSimultaneous(content, AllInFile(content, sorted), |content|);
    ShowsEqual(Restore(Spliced(text, sorted, h)), Spliced(content, AllInFile(content, sorted), |content|), OutsideClean(content, sorted, h));
  }

  /** On a file that holds a CRLF, a successful patch keeps everything outside the anchors byte
      for byte exactly when every lone line feed lies inside an anchor. */
  lemma KeptExactly(hash: string -> string, content: string, blocks: seq<Block>)
    requires ContainsCrlf(content) && PatchContent(hash, content, blocks).Ok?
    ensures AllMatch(hash, Normalize(content), blocks)
    ensures var es := EditsOf(hash, Normalize(content), blocks);
            && Inside(content, es)
            && (PatchContent(hash, content, blocks) == Ok(Simultaneous(content, AllInFile(content, es)))
                <==> LoneCovered(content, AllInFile(content, es), |content|))
  {
    var text := Normalize(content);
    ApplyExactly(hash, text, blocks);
    NonEmptyAnchors(hash, text, blocks);
    RestoredExactlyAround(content, EditsOf(hash, text, blocks));
  }

  /** On a file whose line feeds all follow a carriage return, a patch is the simultaneous
      edit of the file itself. */
  lemma CrlfPatch(hash: string -> string, content: string, blocks: seq<Block>)
    requires CrlfClean(content) && ContainsCrlf(content)
    requires PatchContent(hash, content, blocks).Ok?
    ensures AllMatch(hash, Normalize(content), blocks)
    ensures var es := EditsOf(hash, Normalize(content), blocks);
            Inside(content, es) && PatchContent(hash, content, blocks) == Ok(Simultaneous(content, AllInFile(content, es)))
  {
    KeptExactly(hash, content, blocks);
    assert forall p: nat :: !Lone(content, p);
  }

  /** A file without CRLF is patched as it is. */
  lemma PlainPatch(hash: string -> string, content: string, blocks: seq<Block>)
    requires !ContainsCrlf(content) && PatchContent(hash, content, blocks).Ok?
    ensures AllMatch(hash, content, blocks)
    ensures PatchContent(hash, content, blocks) == Ok(Simultaneous(content, EditsOf(hash, content, blocks)))
  {
    NormalizePlain(content);
    ApplyExactly(hash, content, blocks);
  }

  /** A patch of a file with both kinds of line ending that leaves a lone line feed outside its
      anchors changes that line feed as well. */
  lemma MixedEndingsChange(hash: string -> string, content: string, blocks: seq<Block>, p: nat)
    requires ContainsCrlf(content) && Lone(content, p) && PatchContent(hash, content, blocks).Ok?
    ensures AllMatch(hash, Normalize(content), blocks)
    ensures var es := EditsOf(hash, Normalize(content), blocks);
            && Inside(content, es)
            && (!Covered(AllInFile(content, es), p) ==>
                PatchContent(hash, content, blocks) != Ok(Simultaneous(content, AllInFile(content, es))))
  {
    KeptExactly(hash, content, blocks);
  }

  lemma OneBlock(hash: string -> string, text: string, b: Block, pos: nat)
    requires FindUnique(text, b.oldText) == Some(pos) && pos + |b.oldText| <= |text| && hash(b.oldText) == b.expectedHash
    ensures ApplyBlocks(hash, text, [b]) == Ok(text[..pos] + b.newText + text[pos + |b.oldText|..])
  {
    var e := EditOf(text, b);
    assert [b][1..] == [] && [e] + [] == [e];
    assert Locate(hash, text, [b]) == Ok([e]);
    assert Sort([e], ByStart) == [e];
    assert [e][..0] == [] && Spliced(text, [], e.lo) == text[..pos];
    assert Spliced(text, [e], |text|) == text[..pos] + e.text + text[e.hi..|text|];
    assert text[e.hi..|text|] == text[e.hi..];
  }

  /** Replacing the "a" of the second line by itself rewrites the end of the first line. */
  lemma UntouchedLineChanges(hash: string -> string, content: string, b: Block)
    requires content == "x\n" + "a\r\n" && b == Block(hash("a"), "a", "a")
    ensures PatchContent(hash, content, [b]) == Ok("x\r\na\r\n") && content != "x\r\na\r\n"
  {
    var text := "x\na\n";
    NormalizesTo(content);
    AnchorFound(text);
    OneBlock(hash, text, b, 2);
    assert text[..2] + "a" + text[3..] == text;
    RestoresTo(text);
    assert content[3] == '\r' && content[4] == '\n';
    assert content[1] != "x\r\na\r\n"[1];
  }

  lemma AnchorFound(text: string)
    requires text == "x\na\n"
    ensures FindUnique(text, "a") == Some(2)
  {
    UniqueExactly(text, "a");
    assert OccursAt(text, "a", 2);
    forall i | 0 <= i && OccursAt(text, "a", i) ensures i == 2 {
      assert text[i..i + 1][0] == text[i];
    }
  }

  lemma NormalizeStep(c: char, rest: string)
    ensures c != '\r' ==> Normalize([c] + rest) == [c] + Normalize(rest)
    ensures Normalize("\r\n" + rest) == "\n" + Normalize(rest)
  {
    assert ([c] + rest)[1..] == rest && ("\r\n" + rest)[2..] == rest;
  }

  lemma NormalizesTo(content: string)
    requires content == "x\n" + "a\r\n"
    ensures Normalize(content) == "x\na\n"
  {
    var third := "\r\n" + "";
    var second := ['a'] + third;
    var first := ['\n'] + second;
    assert content == ['x'] + first;
    NormalizeStep('x', first);
    NormalizeStep('\n', second);
    NormalizeStep('a', third);
    NormalizeStep('a', "");
  }

  lemma RestoreStep(c: char, rest: string)
    ensures Restore([c] + rest) == RestoreChar(c) + Restore(rest)
  {
    assert ([c] + rest)[1..] == rest;
  }

  lemma RestoresTo(text: string)
    requires text == "x\na\n"
    ensures Restore(text) == "x\r\na\r\n"
  {
    var third := ['\n'] + "";
    var second := ['a'] + third;
    var first := ['\n'] + second;
    assert text == ['x'] + first;
    RestoreStep('x', first);
    RestoreStep('\n', second);
    RestoreStep('a', third);
    RestoreStep('\n', "");
  }
}
