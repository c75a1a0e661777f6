/** The symbol search of `lsp_refactor` and the edit it falls back to. */
module LspRename {
  import opened Text
  import Sorting
  import opened Splice
  import opened LspEdits

  predicate Isolated(s: string, i: nat, end: nat)
    requires i <= end <= |s|
  {
    !(i > 0 && IsWordChar(s[i - 1])) && !(end < |s| && IsWordChar(s[end]))
  }

  /** The name stands at `i`, and no word character stands right before or behind it. */
  predicate WholeWord(s: string, name: string, i: nat) {
    && OccursAt(s, name, i)
    && (i == 0 || !IsWordChar(s[i - 1]))
    && (i + |name| == |s| || !IsWordChar(s[i + |name|]))
  }

  /** The scan of one line: a rejected match is skipped as a whole. */
  function FindInLine(line: string, name: string, start: nat): (r: Option<nat>)
    requires name != "" && start <= |line|
    ensures r.Some? ==> start <= r.value && WholeWord(line, name, r.value)
    decreases |line| - start
  {
    match Find(line, name, start)
    case None => None
    case Some(pos) =>
      if Isolated(line, pos, pos + |name|) then Some(pos)
      else FindInLine(line, name, pos + |name|)
  }

  function FindInLines(lines: seq<string>, lineNum: nat, name: string): Option<Position>
    requires name != ""
  {
    if lines == [] then None else
      match FindInLine(lines[0], name, 0)
      case Some(pos) => Some(Position(lineNum, Utf16Len(lines[0][..pos])))
      case None => FindInLines(lines[1..], lineNum + 1, name)
  }

  lemma NextMatch(line: string, name: string, start: nat, pos: nat)
    requires name != "" && start <= |line| && Find(line, name, start) == Some(pos)
    requires !Isolated(line, pos, pos + |name|)
    ensures FindInLine(line, name, start) == FindInLine(line, name, pos + |name|)
  {
  }

  lemma LastMatch(line: string, name: string, start: nat)
    requires name != "" && start <= |line|
    ensures Find(line, name, start).None? ==> FindInLine(line, name, start) == None
    ensures forall pos: nat :: Find(line, name, start) == Some(pos) && Isolated(line, pos, pos + |name|) ==>
              FindInLine(line, name, start) == Some(pos)
  {
  }

  /** The inner loop of `find_position`. */
  method ScanLine(line: string, name: string) returns (r: Option<nat>)
    requires name != ""
    ensures r == FindInLine(line, name, 0)
  {
    var start := 0;
    var found := Find(line, name, start);
    ghost var wanted := FindInLine(line, name, 0);
    while found.Some?
      invariant start <= |line| && found == Find(line, name, start)
      invariant wanted == FindInLine(line, name, start)
      decreases |line| - start
    {
      var pos := found.value;
      var end := pos + |name|;
      if Isolated(line, pos, end) {
        LastMatch(line, name, start);
        return Some(pos);
      }
      NextMatch(line, name, start, pos);
      start := end;
      found := Find(line, name, start);
    }
    LastMatch(line, name, start);
    return None;
  }

  /** `find_position`. The caller has rejected empty names. */
  method FindPosition(content: string, name: string) returns (r: Option<Position>)
    requires name != ""
    ensures r == FindInLines(Lines(content), 0, name)
  {
    var lines := Lines(content);
    var lineNum := 0;
    while lineNum < |lines|
      invariant lineNum <= |lines|
      invariant FindInLines(lines, 0, name) == FindInLines(lines[lineNum..], lineNum, name)
    {
      var pos := ScanLine(lines[lineNum], name);
      if pos.Some? {
        return Some(Position(lineNum, Utf16Len(lines[lineNum][..pos.value])));
      }
      assert lines[lineNum..][1..] == lines[lineNum + 1..];
      lineNum := lineNum + 1;
    }
    return None;
  }

  // ---------------------------------------------------------------- skipping matches

  /** Where the name overlaps itself, the overlapping copy is preceded by a word character. */
  predicate SkipsSafely(name: string) {
    forall k :: 0 < k < |name| && Overlaps(name, k) ==> IsWordChar(name[k - 1])
  }

  /** The name overlaps a copy of itself that is shifted by `k`. */
  predicate Overlaps(name: string, k: nat)
    requires k <= |name|
  {
    name[k..] == name[..|name| - k]
  }

  predicate InOneLine(name: string) {
    name != "" && '\n' !in name && '\r' !in name
  }

  lemma WordsSkipSafely(name: string)
    requires forall c :: c in name ==> IsWordChar(c)
    ensures SkipsSafely(name)
  {
  }

  /** An occurrence that overlaps an earlier one is not a whole word. */
  lemma OverlapNotWhole(s: string, name: string, p: nat, q: nat)
    requires SkipsSafely(name) && OccursAt(s, name, p) && p < q < p + |name|
    ensures !WholeWord(s, name, q)
  {
    if OccursAt(s, name, q) {
      var k := q - p;
      assert name[k - 1] == s[p..p + |name|][k - 1] == s[q - 1];
      assert name[k..] == s[p..p + |name|][k..] == s[q..p + |name|];
      assert name[..|name| - k] == s[q..q + |name|][..|name| - k] == s[q..p + |name|];
      assert Overlaps(name, k);
    }
  }

  lemma Skipped(line: string, name: string, pos: nat, q: nat)
    requires SkipsSafely(name) && OccursAt(line, name, pos) && pos <= q < pos + |name|
    requires !Isolated(line, pos, pos + |name|)
    ensures !WholeWord(line, name, q)
  {
    if pos < q {
      OverlapNotWhole(line, name, pos, q);
    }
  }

  lemma BeforeMatch(line: string, name: string, start: nat, q: nat)
    requires start <= q <= |line|
    requires Find(line, name, start).Some? ==> q < Find(line, name, start).value
    ensures !WholeWord(line, name, q)
  {
  }

  /** Skipping over rejected matches loses no whole word. */
  lemma {:induction false} FindInLineFirst(line: string, name: string, start: nat, q: nat)
    requires SkipsSafely(name) && name != "" && start <= q <= |line|
    requires FindInLine(line, name, start).Some? ==> q < FindInLine(line, name, start).value
    ensures !WholeWord(line, name, q)
    decreases |line| - start
  {
    var found := Find(line, name, start);
    if found.None? || q < found.value {
      BeforeMatch(line, name, start, q);
    } else if !Isolated(line, found.value, found.value + |name|) {
      var pos := found.value;
      NextMatch(line, name, start, pos);
      if q < pos + |name| {
        Skipped(line, name, pos, q);
      } else {
        FindInLineFirst(line, name, pos + |name|, q);
      }
    }
  }

  lemma {:induction false} AllSame(name: string, n: nat)
    requires 0 < n <= |name| && "a" + name[..|name| - 1] == name
    ensures name[n - 1] == 'a'
  {
    if n > 1 {
      AllSame(name, n - 1);
      assert ("a" + name[..|name| - 1])[n - 1] == name[n - 2];
    }
  }

  /** The text in which a name that overlaps itself after `k` characters is missed. */
  function Doubled(name: string, k: nat): string
    requires k <= |name|
  {
    "a" + name + name[|name| - k..]
  }

  lemma DoubledOccurs(name: string, k: nat)
    requires 0 < k < |name| && name[k..] == name[..|name| - k]
    ensures OccursAt(Doubled(name, k), name, 1) && OccursAt(Doubled(name, k), name, k + 1)
    ensures Doubled(name, k)[0] == 'a' && Doubled(name, k)[k] == name[k - 1]
  {
  }

  lemma DoubledNotAtZero(name: string, k: nat)
    requires 0 < k < |name| && !IsWordChar(name[k - 1])
    ensures !OccursAt(Doubled(name, k), name, 0)
  {
    var c, n := Doubled(name, k), |name|;
    if OccursAt(c, name, 0) {
      assert c[0..n] == "a" + name[..n - 1];
      AllSame(name, k);
    }
  }

  lemma DoubledFinds(name: string, k: nat)
    requires 0 < k < |name| && name[k..] == name[..|name| - k] && !IsWordChar(name[k - 1])
    ensures Find(Doubled(name, k), name, 0) == Some(1)
    ensures Find(Doubled(name, k), name, 1 + |name|) == None
  {
    var c := Doubled(name, k);
    assert |c| == 1 + |name| + k;
    DoubledOccurs(name, k);
    DoubledNotAtZero(name, k);
    FindsAt(c, name, 0, 1);
    FindsNot(c, name, 1 + |name|);
  }

  lemma FindsAt(s: string, name: string, from: nat, i: nat)
    requires from <= i <= |s| && OccursAt(s, name, i) && forall j :: from <= j < i ==> !OccursAt(s, name, j)
    ensures Find(s, name, from) == Some(i)
  {
  }

  lemma FindsNot(s: string, name: string, from: nat)
    requires from <= |s| && |s| - from < |name|
    ensures Find(s, name, from) == None
  {
  }

  /** A name that is not safe to skip is missed in some text. */
  lemma UnsafeNameIsMissed(name: string, k: nat)
    requires InOneLine(name) && 0 < k < |name|
    requires name[k..] == name[..|name| - k] && !IsWordChar(name[k - 1])
    ensures WholeWord(Doubled(name, k), name, k + 1)
    ensures FindInLines(Lines(Doubled(name, k)), 0, name) == None
  {
    var c := Doubled(name, k);
    DoubledOccurs(name, k);
    DoubledFinds(name, k);
    assert FindInLine(c, name, 1 + |name|) == None;
    assert !Isolated(c, 1, 1 + |name|);
    assert FindInLine(c, name, 0) == None;
    assert '\n' !in c;
    OneLine(c);
    assert [c][1..] == [];
  }

  // ---------------------------------------------------------------- whole texts

  lemma {:induction false} WalkInLine(p: Position, s: string)
    requires '\n' !in s
    ensures Walk(p, s) == Position(p.line, p.character + Utf16Len(s))
  {
    if s != "" {
      WalkInLine(p, s[..|s| - 1]);
    }
  }

  /** Whole words of the first line. */
  lemma WholeWordInLine(content: string, name: string, line: string, i: nat)
    requires InOneLine(name) && line <= content && i + |name| <= |line|
    requires |line| < |content| ==> !IsWordChar(content[|line|])
    ensures WholeWord(content, name, i) <==> WholeWord(line, name, i)
  {
  }

  /** Whole words of the later lines. */
  lemma WholeWordBelow(content: string, name: string, k: nat, i: nat)
    requires name != "" && k < |content| && content[k] == '\n' && k < i
    ensures WholeWord(content, name, i) <==> WholeWord(content[k + 1..], name, i - k - 1)
  {
  }

  predicate NoWholeWord(content: string, name: string, upTo: nat) {
    forall q :: 0 <= q < upTo ==> !WholeWord(content, name, q)
  }

  predicate FirstWholeWord(content: string, name: string, i: nat) {
    WholeWord(content, name, i) && NoWholeWord(content, name, i)
  }

  lemma FirstLine(content: string, name: string, line: string)
    requires InOneLine(name) && SkipsSafely(name)
    requires line <= content && (|line| < |content| ==> !IsWordChar(content[|line|]))
    ensures var r := FindInLine(line, name, 0);
            if r.Some? then FirstWholeWord(content, name, r.value)
            else forall q :: 0 <= q && q + |name| <= |line| ==> !WholeWord(content, name, q)
  {
    var r := FindInLine(line, name, 0);
    forall q: nat | q + |name| <= |line|
      ensures WholeWord(content, name, q) <==> WholeWord(line, name, q)
      ensures (r.Some? ==> q < r.value) ==> !WholeWord(line, name, q)
    {
      WholeWordInLine(content, name, line, q);
      if r.Some? ==> q < r.value {
        FindInLineFirst(line, name, 0, q);
      }
    }
  }

  lemma NoneInFirstLine(content: string, name: string, k: nat)
    requires InOneLine(name) && k < |content| && content[k] == '\n'
    requires forall q :: 0 <= q && q + |name| <= |StripCr(content[..k])| ==> !WholeWord(content, name, q)
    ensures NoWholeWord(content, name, k + 1)
  {
  }

  lemma NoneBelow(content: string, name: string, k: nat, upTo: nat, to: nat)
    requires to == k + 1 + upTo && name != "" && k < |content| && content[k] == '\n' && NoWholeWord(content, name, k + 1)
    requires NoWholeWord(content[k + 1..], name, upTo)
    ensures NoWholeWord(content, name, to)
  {
    forall q | k < q < to ensures !WholeWord(content, name, q) {
      WholeWordBelow(content, name, k, q);
    }
  }

  lemma WalkBelow(content: string, lineNum: nat, k: nat, j: nat, i: nat)
    requires k < |content| && content[k] == '\n' && '\n' !in content[..k] && i == k + 1 + j <= |content|
    ensures Walk(Position(lineNum, 0), content[..i]) == Walk(Position(lineNum + 1, 0), content[k + 1..][..j])
  {
    var first := content[..k] + "\n";
    assert content[..i] == first + content[k + 1..][..j];
    WalkConcat(Position(lineNum, 0), first, content[k + 1..][..j]);
    assert first[..k] == content[..k];
    WalkInLine(Position(lineNum, 0), content[..k]);
  }

  lemma OnThisLine(content: string, name: string, line: string, lineNum: nat, i: nat)
    requires line <= content && '\n' !in line && i <= |line|
    ensures Walk(Position(lineNum, 0), content[..i]) == Position(lineNum, Utf16Len(line[..i]))
  {
    assert content[..i] == line[..i];
    WalkInLine(Position(lineNum, 0), line[..i]);
  }

  lemma OneLine(content: string)
    requires content != "" && '\n' !in content
    ensures Lines(content) == [content]
  {
  }

  /** The first line of a text and the text below it. */
  lemma LinesSplit(content: string, k: nat)
    requires k == IndexOf(content, '\n') && k < |content|
    ensures |Lines(content)| > 0 && Lines(content)[0] == StripCr(content[..k])
    ensures Lines(content)[1..] == Lines(content[k + 1..])
  {
  }

  lemma FirstLineEnds(content: string, k: nat)
    requires k < |content| && content[k] == '\n'
    ensures StripCr(content[..k]) <= content && !IsWordChar(content[|StripCr(content[..k])|])
  {
  }

  /** `i` is where `r`, the result of the search in `content`, points to. */
  ghost predicate SearchOk(content: string, name: string, lineNum: nat, r: Option<Position>, i: nat) {
    match r
    case None => NoWholeWord(content, name, |content| + 1)
    case Some(p) =>
      i <= |content| && FirstWholeWord(content, name, i) && Walk(Position(lineNum, 0), content[..i]) == p
  }

  lemma SearchBelow(content: string, name: string, lineNum: nat, k: nat, r: Option<Position>, j: nat, i: nat)
    requires i == k + 1 + j && name != "" && k == IndexOf(content, '\n') && k < |content| && NoWholeWord(content, name, k + 1)
    requires SearchOk(content[k + 1..], name, lineNum + 1, r, j)
    ensures SearchOk(content, name, lineNum, r, i)
  {
    if r.Some? {
      NoneBelow(content, name, k, j, i);
      WholeWordBelow(content, name, k, i);
      WalkBelow(content, lineNum, k, j, i);
    } else {
      NoneBelow(content, name, k, |content[k + 1..]| + 1, |content| + 1);
    }
  }

  lemma FirstLineOf(content: string, lineNum: nat, name: string) returns (line: string)
    requires content != "" && name != ""
    ensures line <= content && '\n' !in line && (|line| < |content| ==> !IsWordChar(content[|line|]))
    ensures var k := IndexOf(content, '\n');
            line == (if k == |content| then content else StripCr(content[..k]))
    ensures FindInLines(Lines(content), lineNum, name) ==
            match FindInLine(line, name, 0)
            case Some(i) => Some(Position(lineNum, Utf16Len(line[..i])))
            case None =>
              var k := IndexOf(content, '\n');
              if k == |content| then None else FindInLines(Lines(content[k + 1..]), lineNum + 1, name)
  {
    var k := IndexOf(content, '\n');
    line := if k == |content| then content else StripCr(content[..k]);
    if k == |content| {
      OneLine(content);
      assert [content][1..] == [];
    } else {
      LinesSplit(content, k);
      FirstLineEnds(content, k);
    }
  }

  lemma NotFound(content: string, name: string, lineNum: nat)
    requires name != "" && forall q :: 0 <= q && q + |name| <= |content| ==> !WholeWord(content, name, q)
    ensures SearchOk(content, name, lineNum, None, 0)
  {
  }

  lemma FoundHere(content: string, name: string, line: string, lineNum: nat, i: nat)
    requires line <= content && '\n' !in line && i <= |line| && FirstWholeWord(content, name, i)
    ensures SearchOk(content, name, lineNum, Some(Position(lineNum, Utf16Len(line[..i]))), i)
  {
    OnThisLine(content, name, line, lineNum, i);
  }

  lemma {:induction false} FindInText(content: string, name: string, lineNum: nat)
    returns (r: Option<Position>, i: nat)
    requires InOneLine(name) && SkipsSafely(name)
    ensures r == FindInLines(Lines(content), lineNum, name) && SearchOk(content, name, lineNum, r, i)
    decreases |content|
  {
    r, i := None, 0;
    if content == "" {
      NotFound(content, name, lineNum);
    } else {
      var k := IndexOf(content, '\n');
      var line := FirstLineOf(content, lineNum, name);
      FirstLine(content, name, line);
      var f := FindInLine(line, name, 0);
      if f.Some? {
        r, i := Some(Position(lineNum, Utf16Len(line[..f.value]))), f.value;
        FoundHere(content, name, line, lineNum, i);
      } else if k < |content| {
        NoneInFirstLine(content, name, k);
        var below, j := FindInText(content[k + 1..], name, lineNum + 1);
        r, i := below, k + 1 + j;
        SearchBelow(content, name, lineNum, k, r, j, i);
      } else {
        NotFound(content, name, lineNum);
      }
    }
  }

  lemma FoundFirst(content: string, name: string, start: Position)
    requires InOneLine(name) && SkipsSafely(name)
    requires FindInLines(Lines(content), 0, name) == Some(start)
    ensures Resolve(content, start).Some?
    ensures FirstWholeWord(content, name, Resolve(content, start).value)
  {
    var r, i := FindInText(content, name, 0);
    ResolveInverse(content, start, i);
  }

  /** For a name that is safe to skip, in particular for every name of word characters, the
      search succeeds exactly when the text has a whole-word occurrence, and returns the
      position of the first one. */
  lemma FindPositionFirst(content: string, name: string)
    requires InOneLine(name) && SkipsSafely(name)
    ensures var r := FindInLines(Lines(content), 0, name);
            && (r.Some? <==> exists i :: 0 <= i <= |content| && WholeWord(content, name, i))
            && (r.Some? ==> Resolve(content, r.value).Some?
                            && FirstWholeWord(content, name, Resolve(content, r.value).value))
  {
    var r := FindInLines(Lines(content), 0, name);
    if r.Some? {
      FoundFirst(content, name, r.value);
    } else {
      var r, i := FindInText(content, name, 0);
    }
  }

  /** The edit built when the server returns none. */
  function FallbackEdit(start: Position, name: string, newName: string): TextEdit {
    TextEdit(start, Position(start.line, start.character + Utf16Len(name)), newName)
  }

  lemma BehindName(content: string, name: string, i: nat)
    requires InOneLine(name) && OccursAt(content, name, i)
    ensures var p := PosAt(content, i);
            PosAt(content, i + |name|) == Position(p.line, p.character + Utf16Len(name))
  {
    assert content[..i + |name|] == content[..i] + name;
    WalkConcat(Position(0, 0), content[..i], name);
    WalkInLine(PosAt(content, i), name);
  }

  lemma ApplySingle(text: string, e: TextEdit)
    ensures Apply(text, [e]) == ApplyOne(text, e)
  {
    assert [e][1..] == [] && Sorting.Sort([e][1..], NotBefore) == [];
    assert Sorting.Sort([e], NotBefore) == [e];
    if ApplyOne(text, e).Ok? {
      assert ApplyInOrder(ApplyOne(text, e).value, [e][1..]) == ApplyOne(text, e);
    }
  }

  lemma FallbackAt(content: string, name: string, newName: string, i: nat)
    requires InOneLine(name) && OccursAt(content, name, i)
    ensures Apply(content, [FallbackEdit(PosAt(content, i), name, newName)])
            == Ok(content[..i] + newName + content[i + |name|..])
  {
    var e := FallbackEdit(PosAt(content, i), name, newName);
    BehindName(content, name, i);
    ApplyOneAt(content, e, Edit(i, i + |name|, newName));
    ApplySingle(content, e);
  }

  predicate Renames(content: string, name: string, newName: string, i: nat, r: Result<string, EditError>) {
    && OccursAt(content, name, i)
    && r == Ok(content[..i] + newName + content[i + |name|..])
  }

  /** The fallback edit replaces exactly the first whole-word occurrence. */
  lemma FallbackRenames(content: string, name: string, newName: string, start: Position)
    requires InOneLine(name) && SkipsSafely(name)
    requires FindInLines(Lines(content), 0, name) == Some(start)
    ensures Resolve(content, start).Some?
    ensures var i := Resolve(content, start).value;
            && FirstWholeWord(content, name, i)
            && Renames(content, name, newName, i, Apply(content, [FallbackEdit(start, name, newName)]))
  {
    FoundFirst(content, name, start);
    FallbackAt(content, name, newName, Resolve(content, start).value);
  }
}
