/** The hashline patch format: `parse_patch`, and the printed form that it reads back. */
module HashlinePatch {
  import opened Text
  import opened Hashline

  const HASH_LEN: nat := 16
  const OPEN := ">>>>HASH"
  const SEPARATOR := "===="
  const CLOSE := ">>>>END"

  datatype PatchError = BadHash | MissingSeparator | MissingTerminator

  // ---------------------------------------------------------------- parsing

  function IndexOfLine(lines: seq<string>, line: string): (k: nat)
    ensures k <= |lines|
    ensures k < |lines| ==> lines[k] == line
    ensures forall i :: 0 <= i < k ==> lines[i] != line
  {
    if lines == [] || lines[0] == line then 0 else 1 + IndexOfLine(lines[1..], line)
  }

  function Join(lines: seq<string>): string {
    if lines == [] then "" else if |lines| == 1 then lines[0] else lines[0] + "\n" + Join(lines[1..])
  }

  function ParseNew(hash: string, oldText: string, lines: seq<string>): Result<seq<Block>, PatchError>
    decreases |lines|
  {
    var m := IndexOfLine(lines, CLOSE);
    if m == |lines| then Err(MissingTerminator)
    else Prefixed([Block(hash, oldText, Join(lines[..m]))], Parse(lines[m + 1..]))
  }

  function ParseOld(hash: string, lines: seq<string>): Result<seq<Block>, PatchError>
    decreases |lines|
  {
    var k := IndexOfLine(lines, SEPARATOR);
    if k == |lines| then Err(MissingSeparator)
    else ParseNew(hash, Join(lines[..k]), lines[k + 1..])
  }

  function Parse(lines: seq<string>): Result<seq<Block>, PatchError>
    decreases |lines|
  {
    if lines == [] then Ok([])
    else if !(OPEN <= lines[0]) then Parse(lines[1..])
    else
      var hash := Trim(lines[0][|OPEN|..]);
      if Utf8Len(hash) != HASH_LEN then Err(BadHash) else ParseOld(hash, lines[1..])
  }

  /** The loop that collects lines up to a marker. */
  method CollectUntil(lines: seq<string>, from: nat, marker: string) returns (i: nat)
    requires from <= |lines|
    ensures i == from + IndexOfLine(lines[from..], marker) && i <= |lines|
  {
    i := from;
    while i < |lines|
      invariant from <= i <= |lines|
      invariant from + IndexOfLine(lines[from..], marker) == i + IndexOfLine(lines[i..], marker)
    {
      if lines[i] == marker { break; }
      assert lines[i..][1..] == lines[i + 1..];
      i := i + 1;
    }
  }

  function Prefixed(blocks: seq<Block>, r: Result<seq<Block>, PatchError>): Result<seq<Block>, PatchError> {
    match r case Ok(more) => Ok(blocks + more) case Err(e) => Err(e)
  }

  lemma PrefixedNothing(r: Result<seq<Block>, PatchError>)
    ensures Prefixed([], r) == r
  {
    if r.Ok? {
      assert [] + r.value == r.value;
    }
  }

  lemma PrefixedOnce(blocks: seq<Block>, b: Block, r: Result<seq<Block>, PatchError>)
    ensures Prefixed(blocks, Prefixed([b], r)) == Prefixed(blocks + [b], r)
  {
    if r.Ok? {
      Assoc(blocks, [b], r.value);
    }
  }

  lemma ParseNewAt(lines: seq<string>, from: nat, hash: string, oldText: string, m: nat)
    requires from <= |lines| && m == from + IndexOfLine(lines[from..], CLOSE)
    ensures ParseNew(hash, oldText, lines[from..]) ==
            if m == |lines| then Err(MissingTerminator)
            else Prefixed([Block(hash, oldText, Join(lines[from..m]))], Parse(lines[m + 1..]))
  {
    var n := m - from;
    assert lines[from..][..n] == lines[from..m];
    if m < |lines| {
      assert lines[from..][n + 1..] == lines[m + 1..];
    }
  }

  lemma ParseOldAt(lines: seq<string>, from: nat, hash: string, k: nat)
    requires from <= |lines| && k == from + IndexOfLine(lines[from..], SEPARATOR)
    ensures ParseOld(hash, lines[from..]) ==
            if k == |lines| then Err(MissingSeparator)
            else ParseNew(hash, Join(lines[from..k]), lines[k + 1..])
  {
    var n := k - from;
    assert lines[from..][..n] == lines[from..k];
    if k < |lines| {
      assert lines[from..][n + 1..] == lines[k + 1..];
    }
  }

  lemma ParseHead(lines: seq<string>, i: nat)
    requires i < |lines|
    ensures Parse(lines[i..]) ==
            if !(OPEN <= lines[i]) then Parse(lines[i + 1..])
            else
              var hash := Trim(lines[i][|OPEN|..]);
              if Utf8Len(hash) != HASH_LEN then Err(BadHash) else ParseOld(hash, lines[i + 1..])
  {
  }

  datatype Read = Read(block: Block, next: nat)

  /** What is left to parse once `r` has been read. */
  function Resumed(lines: seq<string>, r: Result<Read, PatchError>): Result<seq<Block>, PatchError>
    requires r.Ok? ==> r.value.next <= |lines|
  {
    match r
    case Err(e) => Err(e)
    case Ok(read) => Prefixed([read.block], Parse(lines[read.next..]))
  }

  lemma NewTextRead(lines: seq<string>, from: nat, hash: string, oldText: string, m: nat)
    requires from <= |lines| && m == from + IndexOfLine(lines[from..], CLOSE) && m < |lines|
    ensures ParseNew(hash, oldText, lines[from..])
            == Resumed(lines, Ok(Read(Block(hash, oldText, Join(lines[from..m])), m + 1)))
  {
    ParseNewAt(lines, from, hash, oldText, m);
  }

  lemma OldTextRead(lines: seq<string>, from: nat, hash: string, k: nat, next: nat)
    requires from <= |lines| && k == from + IndexOfLine(lines[from..], SEPARATOR) && k < |lines| && next == k + 1
    ensures ParseOld(hash, lines[from..]) == ParseNew(hash, Join(lines[from..k]), lines[next..])
  {
    ParseOldAt(lines, from, hash, k);
  }

  lemma TextsRead(lines: seq<string>, from: nat, hash: string, k: nat, next: nat, m: nat)
    requires from <= |lines| && k == from + IndexOfLine(lines[from..], SEPARATOR) && k < |lines| && next == k + 1
    requires m == next + IndexOfLine(lines[next..], CLOSE) && m < |lines|
    ensures ParseOld(hash, lines[from..])
            == Resumed(lines, Ok(Read(Block(hash, Join(lines[from..k]), Join(lines[next..m])), m + 1)))
  {
    OldTextRead(lines, from, hash, k, next);
    NewTextRead(lines, next, hash, Join(lines[from..k]), m);
  }

  lemma TextsMissing(lines: seq<string>, from: nat, hash: string, k: nat)
    requires from <= |lines| && k == from + IndexOfLine(lines[from..], SEPARATOR)
    ensures k == |lines| ==> ParseOld(hash, lines[from..]) == Err(MissingSeparator)
    ensures k < |lines| && k + 1 + IndexOfLine(lines[k + 1..], CLOSE) == |lines| ==>
              ParseOld(hash, lines[from..]) == Err(MissingTerminator)
  {
  }

  /** Reads the two texts of a block, which begin at `from`. */
  method ReadTexts(lines: seq<string>, from: nat, hash: string) returns (r: Result<Read, PatchError>)
    requires from <= |lines|
    ensures r.Ok? ==> from < r.value.next <= |lines|
    ensures ParseOld(hash, lines[from..]) == Resumed(lines, r)
  {
    var k := CollectUntil(lines, from, SEPARATOR);
    TextsMissing(lines, from, hash, k);
    if k == |lines| {
      return Err(MissingSeparator);
    }
    var next := k + 1;
    var m := CollectUntil(lines, next, CLOSE);
    if m == |lines| {
      return Err(MissingTerminator);
    }
    TextsRead(lines, from, hash, k, next, m);
    return Ok(Read(Block(hash, Join(lines[from..k]), Join(lines[next..m])), m + 1));
  }

  /** Reads one block, whose first line is at `i`. */
  method ReadBlock(lines: seq<string>, i: nat) returns (r: Result<Read, PatchError>)
    requires i < |lines| && OPEN <= lines[i]
    ensures r.Ok? ==> i < r.value.next <= |lines|
    ensures Parse(lines[i..]) == Resumed(lines, r)
  {
    ParseHead(lines, i);
    var hash := Trim(lines[i][|OPEN|..]);
    if Utf8Len(hash) != HASH_LEN {
      return Err(BadHash);
    }
    r := ReadTexts(lines, i + 1, hash);
  }

  method ParsePatch(lines: seq<string>) returns (r: Result<seq<Block>, PatchError>)
    ensures r == Parse(lines)
  {
    var blocks: seq<Block> := [];
    var i := 0;
    assert lines[0..] == lines;
    PrefixedNothing(Parse(lines));
    while i < |lines|
      invariant i <= |lines|
      invariant Parse(lines) == Prefixed(blocks, Parse(lines[i..]))
    {
      if !(OPEN <= lines[i]) {
        ParseHead(lines, i);
        i := i + 1;
        continue;
      }
      var read := ReadBlock(lines, i);
      if read.Err? {
        return Err(read.error);
      }
      PrefixedOnce(blocks, read.value.block, Parse(lines[read.value.next..]));
      blocks := blocks + [read.value.block];
      i := read.value.next;
    }
    assert blocks + [] == blocks;
    return Ok(blocks);
  }

  // ---------------------------------------------------------------- printing

  function PrintBlock(b: Block): string {
    OPEN + " " + b.expectedHash + "\n" + b.oldText + "\n" + SEPARATOR + "\n" + b.newText + "\n" + CLOSE + "\n"
  }

  function Print(blocks: seq<Block>): string {
    if blocks == [] then "" else PrintBlock(blocks[0]) + Print(blocks[1..])
  }

  // ---------------------------------------------------------------- round trip

  /** The lines of a text without any special treatment of carriage returns. */
  function Split(text: string): (ls: seq<string>)
    ensures ls != []
  {
    var k := IndexOf(text, '\n');
    if k == |text| then [text] else [text[..k]] + Split(text[k + 1..])
  }

  function StripAll(ls: seq<string>): (r: seq<string>)
    ensures |r| == |ls|
    ensures forall i :: 0 <= i < |ls| ==> r[i] == StripCr(ls[i])
  {
    seq(|ls|, i requires 0 <= i < |ls| => StripCr(ls[i]))
  }

  lemma {:induction false} JoinSplit(text: string)
    ensures Join(Split(text)) == text
  {
    var k := IndexOf(text, '\n');
    if k < |text| {
      JoinSplit(text[k + 1..]);
      assert Split(text)[1..] == Split(text[k + 1..]);
      assert text == text[..k] + "\n" + text[k + 1..];
    }
  }

  lemma SplitText(text: string, k: nat, rest: string)
    requires k < |text| && text[k] == '\n'
    ensures text + "\n" + rest == text[..k] + "\n" + (text[k + 1..] + "\n" + rest)
  {
  }

  lemma SplitStrip(text: string, k: nat)
    requires k == IndexOf(text, '\n') && k < |text|
    ensures StripAll(Split(text)) == [StripCr(text[..k])] + StripAll(Split(text[k + 1..]))
  {
    StripCons(text[..k], Split(text[k + 1..]));
  }

  lemma StripCons(line: string, ls: seq<string>)
    ensures StripAll([line] + ls) == [StripCr(line)] + StripAll(ls)
  {
  }

  lemma {:induction false} LinesOfText(text: string, rest: string)
    ensures Lines(text + "\n" + rest) == StripAll(Split(text)) + Lines(rest)
  {
    var k := IndexOf(text, '\n');
    if k == |text| {
      LinesCons(text, rest);
    } else {
      var below := text[k + 1..];
      LinesOfText(below, rest);
      LinesCons(text[..k], below + "\n" + rest);
      SplitText(text, k, rest);
      SplitStrip(text, k);
      Assoc([StripCr(text[..k])], StripAll(Split(below)), Lines(rest));
    }
  }

  /** A text that the format can carry: no line ends with a carriage return or looks like
      the marker that ends the text. */
  predicate Carried(text: string, marker: string) {
    forall i :: 0 <= i < |Split(text)| ==> StripCr(Split(text)[i]) == Split(text)[i] != marker
  }

  predicate HashOk(hash: string) {
    Utf8Len(hash) == HASH_LEN && Trimmed(hash) && '\n' !in hash
  }

  predicate Printable(b: Block) {
    HashOk(b.expectedHash) && Carried(b.oldText, SEPARATOR) && Carried(b.newText, CLOSE)
  }

  lemma {:induction false} JoinShorter(ls: seq<string>, k: nat)
    requires k <= |ls|
    ensures |Join(StripAll(ls)[..k])| <= |Join(ls)|
    ensures k == |ls| && (exists i :: 0 <= i < k && StripCr(ls[i]) != ls[i]) ==> |Join(StripAll(ls)[..k])| < |Join(ls)|
    ensures k < |ls| && ls[k] != "" ==> |Join(StripAll(ls)[..k])| < |Join(ls)|
  {
    if k > 0 {
      JoinShorter(ls[1..], k - 1);
      var s := StripAll(ls)[..k];
      assert s[1..] == StripAll(ls[1..])[..k - 1];
      assert forall i :: 1 <= i < |ls| ==> ls[i] == ls[1..][i - 1];
      assert |s[0]| <= |ls[0]|;
      if |ls| == 1 {
      } else if k == 1 {
        assert |Join(s)| <= |ls[0]| < |Join(ls)|;
      } else {
        assert |Join(s)| == |s[0]| + 1 + |Join(s[1..])|;
      }
    } else if ls != [] && ls[0] != "" {
      assert |Join(ls)| >= |ls[0]|;
    }
  }

  /** Cutting a printed text at its marker gives the text back exactly when it can be carried. */
  lemma CutPrefix(text: string, marker: string, rest: seq<string>, k: nat)
    requires k == IndexOfLine(StripAll(Split(text)) + [marker] + rest, marker)
    ensures k <= |Split(text)|
    ensures (StripAll(Split(text)) + [marker] + rest)[..k] == StripAll(Split(text))[..k]
    ensures k == |Split(text)| <==> forall i :: 0 <= i < |Split(text)| ==> StripCr(Split(text)[i]) != marker
  {
    var ls := Split(text);
    var lines := StripAll(ls) + [marker] + rest;
    assert lines[|ls|] == marker;
    assert forall i :: 0 <= i < |ls| ==> lines[i] == StripCr(ls[i]);
  }

  lemma CutAtMarker(text: string, marker: string, rest: seq<string>)
    requires marker != ""
    ensures var lines := StripAll(Split(text)) + [marker] + rest;
            var k := IndexOfLine(lines, marker);
            && k < |lines|
            && (Carried(text, marker) ==> Join(lines[..k]) == text && lines[k + 1..] == rest)
            && (!Carried(text, marker) ==> Join(lines[..k]) != text)
  {
    var ls := Split(text);
    var lines := StripAll(ls) + [marker] + rest;
    var k := IndexOfLine(lines, marker);
    CutPrefix(text, marker, rest, k);
    JoinSplit(text);
    JoinShorter(ls, k);
    if Carried(text, marker) {
      assert k == |ls|;
      assert StripAll(ls) == ls && ls[..k] == ls;
    }
  }

  /** Everything behind the first line of a printed block. */
  function Tail(b: Block, rest: seq<string>): seq<string> {
    StripAll(Split(b.oldText)) + [SEPARATOR] + (StripAll(Split(b.newText)) + [CLOSE] + rest)
  }

  lemma NewRead(hash: string, oldText: string, newText: string, rest: seq<string>)
    ensures var r := ParseNew(hash, oldText, StripAll(Split(newText)) + [CLOSE] + rest);
            if Carried(newText, CLOSE) then r == Prefixed([Block(hash, oldText, newText)], Parse(rest))
            else r.Ok? ==> r.value != [] && r.value[0].newText != newText
  {
    CutAtMarker(newText, CLOSE, rest);
  }

  /** All blocks that are read from here on start with these two parts. */
  lemma FirstParts(hash: string, oldText: string, lines: seq<string>)
    ensures var r := ParseNew(hash, oldText, lines);
            r.Ok? ==> r.value != [] && r.value[0].oldText == oldText && r.value[0].expectedHash == hash
  {
  }

  predicate TextsOk(b: Block) {
    Carried(b.oldText, SEPARATOR) && Carried(b.newText, CLOSE)
  }

  lemma TailRead(hash: string, b: Block, rest: seq<string>)
    ensures var r := ParseOld(hash, Tail(b, rest));
            if TextsOk(b) then r == Prefixed([Block(hash, b.oldText, b.newText)], Parse(rest))
            else r.Ok? ==> r.value != [] && (r.value[0].oldText != b.oldText || r.value[0].newText != b.newText)
  {
    var news := StripAll(Split(b.newText)) + [CLOSE] + rest;
    var lines := Tail(b, rest);
    CutAtMarker(b.oldText, SEPARATOR, news);
    Assoc(StripAll(Split(b.oldText)), [SEPARATOR], news);
    var k := IndexOfLine(lines, SEPARATOR);
    if Carried(b.oldText, SEPARATOR) {
      NewRead(hash, b.oldText, b.newText, rest);
    } else {
      FirstParts(hash, Join(lines[..k]), lines[k + 1..]);
    }
  }

  lemma NewLines(newText: string, rest: string)
    ensures Lines(newText + "\n" + (CLOSE + "\n" + rest)) == StripAll(Split(newText)) + [CLOSE] + Lines(rest)
  {
    LinesCons(CLOSE, rest);
    LinesOfText(newText, CLOSE + "\n" + rest);
    Assoc(StripAll(Split(newText)), [CLOSE], Lines(rest));
  }

  lemma OldLines(oldText: string, rest: string)
    ensures Lines(oldText + "\n" + (SEPARATOR + "\n" + rest)) == StripAll(Split(oldText)) + [SEPARATOR] + Lines(rest)
  {
    LinesCons(SEPARATOR, rest);
    LinesOfText(oldText, SEPARATOR + "\n" + rest);
    Assoc(StripAll(Split(oldText)), [SEPARATOR], Lines(rest));
  }

  lemma PrintedText(b: Block, rest: string)
    ensures PrintBlock(b) + rest
            == OPEN + " " + b.expectedHash + "\n"
               + (b.oldText + "\n" + (SEPARATOR + "\n" + (b.newText + "\n" + (CLOSE + "\n" + rest))))
  {
  }

  lemma PrintedLines(b: Block, rest: string)
    ensures Lines(PrintBlock(b) + rest)
            == StripAll(Split(OPEN + " " + b.expectedHash)) + Tail(b, Lines(rest))
  {
    var newPart := b.newText + "\n" + (CLOSE + "\n" + rest);
    var oldPart := b.oldText + "\n" + (SEPARATOR + "\n" + newPart);
    PrintedText(b, rest);
    NewLines(b.newText, rest);
    OldLines(b.oldText, newPart);
    LinesOfText(OPEN + " " + b.expectedHash, oldPart);
    Assoc(StripAll(Split(b.oldText)), [SEPARATOR], Lines(newPart));
  }

  /** The first line of a printed block, as it is read. */
  function Head(b: Block): (head: string) {
    StripCr(Split(OPEN + " " + b.expectedHash)[0])
  }

  lemma {:induction false} IndexOfBehind(front: string, s: string, c: char)
    requires c !in front
    ensures IndexOf(front + s, c) == |front| + IndexOf(s, c)
  {
    if front == "" {
      assert front + s == s;
    } else {
      assert (front + s)[1..] == front[1..] + s;
      IndexOfBehind(front[1..], s, c);
    }
  }

  lemma FirstBreak(b: Block, k: nat)
    requires k == IndexOf(OPEN + " " + b.expectedHash, '\n')
    ensures |OPEN| < k && (k == |OPEN| + 1 + |b.expectedHash| <==> '\n' !in b.expectedHash)
  {
    IndexOfBehind(OPEN + " ", b.expectedHash, '\n');
  }

  lemma HeadLine(b: Block)
    ensures OPEN <= Head(b)
    ensures '\n' !in b.expectedHash ==> Split(OPEN + " " + b.expectedHash) == [OPEN + " " + b.expectedHash]
    ensures '\n' in b.expectedHash ==> |Head(b)| <= |OPEN| + |b.expectedHash|
    ensures |Head(b)| > |OPEN| && Head(b)[|OPEN|] == ' '
  {
    var first := OPEN + " " + b.expectedHash;
    var k := IndexOf(first, '\n');
    FirstBreak(b, k);
    assert first[..k][..|OPEN|] == OPEN && first[|OPEN|] == ' ';
  }

  lemma TrimBlank(s: string)
    requires s != "" && s[0] == ' '
    ensures |Trim(s)| < |s|
    ensures Trimmed(s[1..]) ==> Trim(s) == s[1..]
  {
  }

  /** The hash is read back exactly when it can be printed. */
  lemma HashRead(b: Block)
    ensures OPEN <= Head(b)
    ensures var hash := Trim(Head(b)[|OPEN|..]);
            HashOk(b.expectedHash) <==> hash == b.expectedHash && Utf8Len(hash) == HASH_LEN
  {
    HeadLine(b);
    var h := Head(b)[|OPEN|..];
    TrimBlank(h);
    if '\n' !in b.expectedHash {
      var first := OPEN + " " + b.expectedHash;
      assert first[|OPEN| + 1..] == b.expectedHash;
      if HashOk(b.expectedHash) {
        assert b.expectedHash != "";
        assert first[|first| - 1] == b.expectedHash[|b.expectedHash| - 1];
        assert StripCr(first) == first;
        assert h[1..] == b.expectedHash;
      }
    }
  }

  /** The first block that is read carries the hash of its own first line. */
  lemma FirstHash(hash: string, lines: seq<string>)
    ensures ParseOld(hash, lines).Ok? ==> ParseOld(hash, lines).value != [] && ParseOld(hash, lines).value[0].expectedHash == hash
  {
  }

  /** One printed block in front of other lines. */
  lemma BlockRead(b: Block, rest: string)
    ensures Printable(b) ==> Parse(Lines(PrintBlock(b) + rest)) == Prefixed([b], Parse(Lines(rest)))
    ensures !Printable(b) ==>
              var r := Parse(Lines(PrintBlock(b) + rest));
              r.Ok? ==> r.value != [] && r.value[0] != b
  {
    PrintedLines(b, rest);
    HashRead(b);
    HeadLine(b);
    var lines := Lines(PrintBlock(b) + rest);
    var hash := Trim(Head(b)[|OPEN|..]);
    assert lines[0] == Head(b);
    FirstHash(hash, lines[1..]);
    if HashOk(b.expectedHash) {
      assert lines[1..] == Tail(b, Lines(rest));
      TailRead(hash, b, Lines(rest));
    }
  }

  /** Parsing the printed form returns the same blocks exactly when every block can be
      printed: its hash has sixteen bytes and no surrounding white space, no line of its
      texts ends with a carriage return, no old line is the separator and no new line the
      terminator. Other marker lines inside the texts do no harm. */
  lemma {:induction false} RoundTripExactly(blocks: seq<Block>)
    ensures Parse(Lines(Print(blocks))) == Ok(blocks)
            <==> forall i :: 0 <= i < |blocks| ==> Printable(blocks[i])
  {
    if blocks != [] {
      var b, rest := blocks[0], Print(blocks[1..]);
      BlockRead(b, rest);
      RoundTripExactly(blocks[1..]);
      var r := Parse(Lines(rest));
      if Printable(b) {
        assert r.Ok? ==> ([b] + r.value)[1..] == r.value;
        assert [b] + blocks[1..] == blocks;
      }
    }
  }

  // ---------------------------------------------------------------- patches written by hand

  lemma {:induction false} FirstLine(before: seq<string>, line: string, after: seq<string>)
    requires line !in before
    ensures IndexOfLine(before + [line] + after, line) == |before|
  {
    var lines := before + [line] + after;
    if before != [] {
      assert lines[0] == before[0] && lines[1..] == before[1..] + [line] + after;
      FirstLine(before[1..], line, after);
    }
  }

  lemma {:induction false} NoLine(lines: seq<string>, line: string)
    requires line !in lines
    ensures IndexOfLine(lines, line) == |lines|
  {
    if lines != [] {
      NoLine(lines[1..], line);
    }
  }

  /** Lines that open no block are skipped, in front of a block and behind the last one. */
  lemma {:induction false} OthersSkipped(others: seq<string>, lines: seq<string>)
    requires forall k :: 0 <= k < |others| ==> !(OPEN <= others[k])
    ensures Parse(others + lines) == Parse(lines) && Parse(others) == Ok([])
  {
    if others == [] {
      assert others + lines == lines;
    } else {
      assert (others + lines)[0] == others[0] && (others + lines)[1..] == others[1..] + lines;
      OthersSkipped(others[1..], lines);
    }
  }

  /** What a line that opens a block makes of the lines behind it. */
  lemma OpenedExactly(head: string, olds: seq<string>, news: seq<string>, more: seq<string>)
    requires OPEN <= head
    ensures var hash := Trim(head[|OPEN|..]);
            && (Utf8Len(hash) != HASH_LEN ==> Parse([head] + olds) == Err(BadHash))
            && (Utf8Len(hash) == HASH_LEN && SEPARATOR !in olds ==>
                && Parse([head] + olds) == Err(MissingSeparator)
                && (CLOSE !in news ==>
                    && Parse([head] + (olds + [SEPARATOR] + news)) == Err(MissingTerminator)
                    && Parse([head] + (olds + [SEPARATOR] + (news + [CLOSE] + more)))
                       == Prefixed([Block(hash, Join(olds), Join(news))], Parse(more))))
  {
    var hash := Trim(head[|OPEN|..]);
    HeadThen(head, olds);
    if Utf8Len(hash) == HASH_LEN && SEPARATOR !in olds {
      NoLine(olds, SEPARATOR);
      if CLOSE !in news {
        var tail := news + [CLOSE] + more;
        HeadThen(head, olds + [SEPARATOR] + news);
        HeadThen(head, olds + [SEPARATOR] + tail);
        OldThen(hash, olds, news);
        OldThen(hash, olds, tail);
        NoLine(news, CLOSE);
        FirstLine(news, CLOSE, more);
        assert tail[..|news|] == news && tail[|news| + 1..] == more;
      }
    }
  }

  lemma HeadThen(head: string, lines: seq<string>)
    requires OPEN <= head
    ensures var hash := Trim(head[|OPEN|..]);
            Parse([head] + lines) == if Utf8Len(hash) != HASH_LEN then Err(BadHash) else ParseOld(hash, lines)
  {
    assert ([head] + lines)[1..] == lines;
  }

  lemma OldThen(hash: string, olds: seq<string>, rest: seq<string>)
    requires SEPARATOR !in olds
    ensures ParseOld(hash, olds + [SEPARATOR] + rest) == ParseNew(hash, Join(olds), rest)
  {
    var lines := olds + [SEPARATOR] + rest;
    FirstLine(olds, SEPARATOR, rest);
    assert lines[..|olds|] == olds && lines[|olds| + 1..] == rest;
  }
}
