/** The message log of a group: a file of lines that compacts itself, and the bounded read.

    A message is its encoded line. `Encoded` is what the encoder is known for: one line,
    not empty, no white space at either end. Decoding the line again is not modelled. */
module MessageLog {
  import opened Text

  const MAX_LOADED: nat := 1000
  const MAX_BYTES: nat := 10 * 1024 * 1024

  predicate Encoded(line: string) {
    line != "" && Trimmed(line) && '\n' !in line
  }

  // ---------------------------------------------------------------- the code

  /** The lines of a file that are not blank, trimmed. */
  function Entries(lines: seq<string>): seq<string> {
    if lines == [] then [] else
      var l := Trim(lines[|lines| - 1]);
      Entries(lines[..|lines| - 1]) + (if l == "" then [] else [l])
  }

  function LastOf(s: seq<string>, n: nat): (r: seq<string>)
    ensures |r| <= n
  {
    if |s| <= n then s else s[|s| - n..]
  }

  function Print(lines: seq<string>): string {
    if lines == [] then "" else Print(lines[..|lines| - 1]) + lines[|lines| - 1] + "\n"
  }

  /** What compaction writes back: the younger half of the last thousand lines. */
  function YoungerHalf(lines: seq<string>): seq<string> {
    var kept := LastOf(lines, MAX_LOADED);
    kept[|kept| / 2..]
  }

  function Appended(content: string, line: string): string {
    (if Utf8Len(content) + Utf8Len(line) + 1 > MAX_BYTES then Print(YoungerHalf(Entries(Lines(content)))) else content)
    + line + "\n"
  }

  function Loaded(content: string): Option<seq<string>> {
    if Utf8Len(content) > MAX_BYTES then None else Some(LastOf(Entries(Lines(content)), MAX_LOADED))
  }

  /** The ring buffer that both readers use. */
  method ReadRing(lines: seq<string>) returns (ring: seq<string>)
    ensures ring == LastOf(Entries(lines), MAX_LOADED)
  {
    ring := [];
    for i := 0 to |lines|
      invariant ring == LastOf(Entries(lines[..i]), MAX_LOADED)
    {
      assert lines[..i + 1][..i] == lines[..i];
      var l := Trim(lines[i]);
      if l == "" {
        continue;
      }
      if |ring| >= MAX_LOADED {
        ring := ring[1..];
      }
      ring := ring + [l];
    }
    assert lines[..|lines|] == lines;
  }

  method WriteLines(lines: seq<string>) returns (content: string)
    ensures content == Print(lines)
  {
    content := "";
    for i := 0 to |lines|
      invariant content == Print(lines[..i])
    {
      assert lines[..i + 1][..i] == lines[..i];
      content := content + lines[i] + "\n";
    }
    assert lines[..|lines|] == lines;
  }

  class LogFile {
    var content: string

    constructor ()
      ensures content == ""
    {
      content := "";
    }

    /** `add_message`, under the file lock. */
    method AddMessage(line: string)
      modifies this
      ensures content == Appended(old(content), line)
    {
      var lineLen := Utf8Len(line) + 1;
      if Utf8Len(content) + lineLen > MAX_BYTES {
        var kept := ReadRing(Lines(content));
        var dropCount := |kept| / 2;
        content := WriteLines(kept[dropCount..]);
      }
      content := content + line + "\n";
    }

    /** `load_messages`; `None` when the file is over its limit. */
    method LoadMessages() returns (r: Option<seq<string>>)
      ensures r == Loaded(content)
    {
      if Utf8Len(content) > MAX_BYTES {
        return None;
      }
      var messages := ReadRing(Lines(content));
      return Some(messages);
    }
  }

  // ---------------------------------------------------------------- the file is its list of lines

  predicate AllEncoded(lines: seq<string>) {
    forall i :: 0 <= i < |lines| ==> Encoded(lines[i])
  }

  lemma {:induction false} PrintCons(line: string, lines: seq<string>)
    ensures Print([line] + lines) == line + "\n" + Print(lines)
  {
    var all := [line] + lines;
    if lines == [] {
      assert all == [line] && all[..0] == [] && Print([]) == "";
      assert all[..|all| - 1] == [];
    } else {
      var n := |lines| - 1;
      PrintCons(line, lines[..n]);
      assert all[..|all| - 1] == [line] + lines[..n];
      Assoc(line + "\n", Print(lines[..n]) + lines[n], "\n");
      Assoc(line + "\n", Print(lines[..n]), lines[n]);
    }
  }

  lemma FirstLineOfPrint(line: string, rest: seq<string>)
    requires Encoded(line)
    ensures Lines(Print([line] + rest)) == [line] + Lines(Print(rest))
  {
    PrintCons(line, rest);
    LinesCons(line, Print(rest));
    assert StripCr(line) == line;
  }

  lemma {:induction false} LinesOfPrint(lines: seq<string>)
    requires AllEncoded(lines)
    ensures Lines(Print(lines)) == lines
  {
    if lines != [] {
      var first, rest := lines[0], lines[1..];
      LinesOfPrint(rest);
      FirstLineOfPrint(first, rest);
      assert lines == [first] + rest;
    }
  }

  lemma EntriesSnoc(lines: seq<string>)
    requires lines != [] && Encoded(lines[|lines| - 1])
    ensures Entries(lines) == Entries(lines[..|lines| - 1]) + [lines[|lines| - 1]]
  {
  }

  lemma {:induction false} EntriesOfLines(lines: seq<string>)
    requires AllEncoded(lines)
    ensures Entries(lines) == lines
  {
    if lines != [] {
      EntriesOfLines(lines[..|lines| - 1]);
      EntriesSnoc(lines);
      Snoc(lines);
    }
  }

  function Size(lines: seq<string>): nat {
    if lines == [] then 0 else Size(lines[..|lines| - 1]) + Utf8Len(lines[|lines| - 1]) + 1
  }

  lemma {:induction false} SizeOfPrint(lines: seq<string>)
    ensures Utf8Len(Print(lines)) == Size(lines)
  {
    if lines != [] {
      var n := |lines| - 1;
      SizeOfPrint(lines[..n]);
      Utf8LenConcat(Print(lines[..n]), lines[n]);
      Utf8LenConcat(Print(lines[..n]) + lines[n], "\n");
      assert "\n"[..0] == "";
    }
  }

  /** `add_message` on the list of lines. */
  function Added(log: seq<string>, line: string): seq<string> {
    (if Size(log) + Utf8Len(line) + 1 > MAX_BYTES then YoungerHalf(log) else log) + [line]
  }

  lemma PrintSnoc(lines: seq<string>, line: string)
    ensures Print(lines + [line]) == Print(lines) + line + "\n"
  {
    assert (lines + [line])[..|lines|] == lines;
  }

  /** A printed log is read back and measured exactly. */
  lemma ReadBack(log: seq<string>)
    requires AllEncoded(log)
    ensures Entries(Lines(Print(log))) == log && Utf8Len(Print(log)) == Size(log)
  {
    SizeOfPrint(log);
    LinesOfPrint(log);
    EntriesOfLines(log);
  }

  lemma AppendedWith(content: string, line: string, half: seq<string>)
    requires half == YoungerHalf(Entries(Lines(content)))
    ensures Appended(content, line)
            == (if Utf8Len(content) + Utf8Len(line) + 1 > MAX_BYTES then Print(half) else content) + line + "\n"
  {
  }

  lemma AddedEncoded(log: seq<string>, line: string)
    requires AllEncoded(log) && Encoded(line)
    ensures AllEncoded(Added(log, line))
  {
  }

  lemma AppendedIsAdded(log: seq<string>, line: string)
    requires AllEncoded(log) && Encoded(line)
    ensures Appended(Print(log), line) == Print(Added(log, line)) && AllEncoded(Added(log, line))
  {
    AddedEncoded(log, line);
    ReadBack(log);
    AppendedWith(Print(log), line, YoungerHalf(log));
    PrintSnoc(if Size(log) + Utf8Len(line) + 1 > MAX_BYTES then YoungerHalf(log) else log, line);
  }

  // ---------------------------------------------------------------- runs

  /** The lines in the file after the messages were added one by one. */
  function LogAfter(posted: seq<string>): seq<string> {
    if posted == [] then [] else Added(LogAfter(posted[..|posted| - 1]), posted[|posted| - 1])
  }

  function FileAfter(posted: seq<string>): string {
    if posted == [] then "" else Appended(FileAfter(posted[..|posted| - 1]), posted[|posted| - 1])
  }

  predicate IsSuffix(s: seq<string>, t: seq<string>) {
    |s| <= |t| && t[|t| - |s|..] == s
  }

  lemma {:induction false} FileIsLog(posted: seq<string>)
    requires AllEncoded(posted)
    ensures AllEncoded(LogAfter(posted)) && FileAfter(posted) == Print(LogAfter(posted))
  {
    if posted != [] {
      var n := |posted| - 1;
      FileIsLog(posted[..n]);
      AppendedIsAdded(LogAfter(posted[..n]), posted[n]);
    }
  }

  lemma Snoc(s: seq<string>)
    requires s != []
    ensures s[..|s| - 1] + [s[|s| - 1]] == s
  {
  }

  /** The log is an in-order suffix of everything posted. */
  lemma {:induction false} LogIsSuffix(posted: seq<string>)
    ensures IsSuffix(LogAfter(posted), posted)
  {
    if posted != [] {
      var n := |posted| - 1;
      LogIsSuffix(posted[..n]);
      AddedIsSuffix(LogAfter(posted[..n]), posted[..n], posted[n]);
      Snoc(posted);
    }
  }

  lemma NewestIsKept(posted: seq<string>)
    requires posted != []
    ensures LogAfter(posted) != [] && LogAfter(posted)[|LogAfter(posted)| - 1] == posted[|posted| - 1]
  {
  }

  lemma AddedIsSuffix(log: seq<string>, posted: seq<string>, line: string)
    requires IsSuffix(log, posted)
    ensures IsSuffix(Added(log, line), posted + [line])
  {
  }

  function AtMost(n: nat, limit: nat): nat {
    if n < limit then n else limit
  }

  lemma LastOfMeans(s: seq<string>, n: nat)
    ensures LastOf(s, n) == s[|s| - AtMost(|s|, n)..]
  {
  }

  lemma YoungerMeans(lines: seq<string>, m: nat)
    requires m == AtMost(|lines|, MAX_LOADED)
    ensures YoungerHalf(lines) == lines[|lines| - (m - m / 2)..]
  {
    LastOfMeans(lines, MAX_LOADED);
    assert lines[|lines| - m..][m / 2..] == lines[|lines| - (m - m / 2)..];
  }

  lemma LoadReads(posted: seq<string>)
    requires AllEncoded(posted)
    ensures Loaded(FileAfter(posted))
            == if Size(LogAfter(posted)) > MAX_BYTES then None else Some(LastOf(LogAfter(posted), MAX_LOADED))
  {
    FileIsLog(posted);
    ReadBack(LogAfter(posted));
  }

  lemma LastLoaded(content: string, log: seq<string>)
    requires Loaded(content) == if Size(log) > MAX_BYTES then None else Some(LastOf(log, MAX_LOADED))
    ensures Loaded(content) == if Size(log) > MAX_BYTES then None else Some(log[|log| - AtMost(|log|, MAX_LOADED)..])
  {
    LastOfMeans(log, MAX_LOADED);
  }

  /** Reading is refused for size, or gives the last thousand lines of the log. */
  lemma LoadReturnsLast(posted: seq<string>)
    requires AllEncoded(posted)
    ensures var log := LogAfter(posted);
            Loaded(FileAfter(posted))
            == if Size(log) > MAX_BYTES then None else Some(log[|log| - AtMost(|log|, MAX_LOADED)..])
  {
    LoadReads(posted);
    LastLoaded(FileAfter(posted), LogAfter(posted));
  }

  /** What one more message makes of the log: if it does not fit any more, of the last thousand
      lines the older half goes, the smaller one if the two differ. */
  lemma AddedExactly(log: seq<string>, line: string)
    ensures var m := AtMost(|log|, MAX_LOADED);
            Added(log, line)
            == (if Size(log) + Utf8Len(line) + 1 > MAX_BYTES then log[|log| - (m - m / 2)..] else log) + [line]
  {
    YoungerMeans(log, AtMost(|log|, MAX_LOADED));
  }

  lemma LogStep(posted: seq<string>, line: string)
    ensures LogAfter(posted + [line]) == Added(LogAfter(posted), line)
  {
    assert (posted + [line])[..|posted|] == posted;
  }

  lemma FileStep(posted: seq<string>, line: string)
    requires AllEncoded(posted) && Encoded(line)
    ensures Utf8Len(FileAfter(posted)) == Size(LogAfter(posted))
    ensures FileAfter(posted + [line]) == Print(LogAfter(posted + [line]))
  {
    FileIsLog(posted);
    ReadBack(LogAfter(posted));
    FileIsLog(posted + [line]);
  }

  /** The same over any run, for the log and for the file. */
  lemma StepExactly(posted: seq<string>, line: string)
    ensures var log := LogAfter(posted);
            var m := AtMost(|log|, MAX_LOADED);
            LogAfter(posted + [line])
            == (if Size(log) + Utf8Len(line) + 1 > MAX_BYTES then log[|log| - (m - m / 2)..] else log) + [line]
    ensures AllEncoded(posted) && Encoded(line) ==>
              && Utf8Len(FileAfter(posted)) == Size(LogAfter(posted))
              && FileAfter(posted + [line]) == Print(LogAfter(posted + [line]))
  {
    LogStep(posted, line);
    AddedExactly(LogAfter(posted), line);
    if AllEncoded(posted) && Encoded(line) {
      FileStep(posted, line);
    }
  }

  lemma {:induction false} EntriesConcat(a: seq<string>, b: seq<string>)
    ensures Entries(a + b) == Entries(a) + Entries(b)
  {
    if b == [] {
      assert a + b == a;
    } else {
      var n := |b| - 1;
      EntriesConcat(a, b[..n]);
      assert (a + b)[..|a + b| - 1] == a + b[..n];
      Assoc(Entries(a), Entries(b[..n]), if Trim(b[n]) == "" then [] else [Trim(b[n])]);
    }
  }

  /** Of the lines of any file, blank ones are skipped and the others are read trimmed. */
  lemma EntriesExactly(before: seq<string>, line: string, after: seq<string>)
    ensures Entries(before + [line] + after)
            == Entries(before) + (if Trim(line) == "" then [] else [Trim(line)]) + Entries(after)
  {
    EntriesConcat(before + [line], after);
    EntriesConcat(before, [line]);
    assert [line][..0] == [];
  }

  /** Whoever wrote the file: compaction keeps the younger half of the last thousand lines that
      can be read from it. */
  lemma AnyFileExactly(content: string, line: string, entries: seq<string>, m: nat)
    requires entries == Entries(Lines(content)) && m == AtMost(|entries|, MAX_LOADED)
    ensures Appended(content, line)
            == (if Utf8Len(content) + Utf8Len(line) + 1 > MAX_BYTES then Print(entries[|entries| - (m - m / 2)..]) else content)
               + line + "\n"
  {
    YoungerMeans(entries, m);
    AppendedWith(content, line, entries[|entries| - (m - m / 2)..]);
  }

  // ---------------------------------------------------------------- the size limit

  predicate Between(lines: seq<string>, lmin: nat, lmax: nat) {
    forall i :: 0 <= i < |lines| ==> lmin <= Utf8Len(lines[i]) + 1 <= lmax
  }

  const HALF := MAX_LOADED / 2

  /** Either compaction leaves room for one line whatever the lines, or, with `k` of the
      longest lines filling a file, the lines dropped before them leave room for one more,
      or the file cannot hold that many lines in the first place. */
  predicate Fits(lmin: nat, lmax: nat) {
    (HALF + 1) * lmax <= MAX_BYTES
    || (lmax <= MAX_BYTES
        && Frees(MAX_BYTES / lmax, lmin, lmax))
  }

  predicate Frees(k: nat, lmin: nat, lmax: nat) {
    lmax <= (k - 1) * lmin || (2 * k - 1) * lmin > MAX_BYTES
  }

  lemma {:induction false} SizeBounds(lines: seq<string>, lmin: nat, lmax: nat)
    requires Between(lines, lmin, lmax)
    ensures |lines| * lmin <= Size(lines) <= |lines| * lmax
  {
    if lines != [] {
      var n := |lines| - 1;
      SizeBounds(lines[..n], lmin, lmax);
      Distribute(n, lmin);
      Distribute(n, lmax);
      assert lmin <= Utf8Len(lines[n]) + 1 <= lmax;
    }
  }

  lemma {:induction false} SizeConcat(a: seq<string>, b: seq<string>)
    ensures Size(a + b) == Size(a) + Size(b)
  {
    if b == [] {
      assert a + b == a;
    } else {
      SizeConcat(a, b[..|b| - 1]);
      assert (a + b)[..|a + b| - 1] == a + b[..|b| - 1];
    }
  }

  lemma Distribute(n: nat, c: nat)
    ensures (n + 1) * c == n * c + c
  {
  }

  lemma MulMonotone(a: nat, b: nat, c: nat)
    requires a <= b
    ensures a * c <= b * c
  {
  }

  /** The arithmetic of one compaction: of a full log of `n` lines, `c` lines of `kept` bytes
      stay and the others had `dropped` bytes. */
  lemma RoomForOne(lmin: nat, lmax: nat, n: nat, c: nat, kept: nat, dropped: nat)
    requires Fits(lmin, lmax) && c <= HALF && 2 * c <= n + 1
    requires kept <= c * lmax && (n - c) * lmin <= dropped && n * lmin <= kept + dropped <= MAX_BYTES
    ensures kept + lmax <= MAX_BYTES
  {
    Distribute(c, lmax);
    if (HALF + 1) * lmax <= MAX_BYTES {
      MulMonotone(c + 1, HALF + 1, lmax);
    } else {
      var k := MAX_BYTES / lmax;
      if c + 1 <= k {
        MulMonotone(c + 1, k, lmax);
      } else if lmax <= (k - 1) * lmin {
        MulMonotone(k - 1, n - c, lmin);
      } else {
        MulMonotone(2 * k - 1, n, lmin);
      }
    }
  }

  /** Compaction keeps the end of the log, at most `HALF` lines and at most one more than it drops. */
  lemma HalfOf(log: seq<string>) returns (older: seq<string>)
    ensures log == older + YoungerHalf(log)
    ensures |YoungerHalf(log)| <= HALF && |YoungerHalf(log)| <= |older| + 1
  {
    var half := YoungerHalf(log);
    older := log[..|log| - |half|];
    assert half == log[|log| - |half|..];
  }

  /** Compaction frees at least the room that the next line needs. */
  lemma CompactionFreesRoom(log: seq<string>, line: string, lmin: nat, lmax: nat)
    requires Fits(lmin, lmax) && Between(log, lmin, lmax) && Utf8Len(line) + 1 <= lmax
    requires Size(log) <= MAX_BYTES && Size(log) + Utf8Len(line) + 1 > MAX_BYTES
    ensures Size(Added(log, line)) <= MAX_BYTES
  {
    var older := HalfOf(log);
    var half := YoungerHalf(log);
    PartsBetween(older, half, lmin, lmax);
    SizeConcat(older, half);
    SizeBounds(log, lmin, lmax);
    SizeBounds(older, lmin, lmax);
    SizeBounds(half, lmin, lmax);
    RoomForOne(lmin, lmax, |log|, |half|, Size(half), Size(older));
    SizeSnoc(half, line);
  }

  lemma PartsBetween(a: seq<string>, b: seq<string>, lmin: nat, lmax: nat)
    requires Between(a + b, lmin, lmax)
    ensures Between(a, lmin, lmax) && Between(b, lmin, lmax)
  {
    assert forall i :: 0 <= i < |a| ==> (a + b)[i] == a[i];
    assert forall i :: 0 <= i < |b| ==> (a + b)[|a| + i] == b[i];
  }

  lemma SizeSnoc(lines: seq<string>, line: string)
    ensures Size(lines + [line]) == Size(lines) + Utf8Len(line) + 1
  {
    assert (lines + [line])[..|lines|] == lines;
  }

  /** If every line is between `lmin` and `lmax` bytes and these fit, the file never exceeds
      its limit, so reading it is never refused. */
  lemma {:induction false} NeverTooLarge(posted: seq<string>, lmin: nat, lmax: nat)
    requires Fits(lmin, lmax) && Between(posted, lmin, lmax)
    ensures Size(LogAfter(posted)) <= MAX_BYTES
    ensures AllEncoded(posted) ==> Loaded(FileAfter(posted)) == Some(LastOf(LogAfter(posted), MAX_LOADED))
  {
    if posted != [] {
      var n := |posted| - 1;
      var log := LogAfter(posted[..n]);
      NeverTooLarge(posted[..n], lmin, lmax);
      if Size(log) + Utf8Len(posted[n]) + 1 > MAX_BYTES {
        LogIsSuffix(posted[..n]);
        SuffixBetween(log, posted[..n], lmin, lmax);
        CompactionFreesRoom(log, posted[n], lmin, lmax);
      } else {
        SizeSnoc(log, posted[n]);
      }
    }
    if AllEncoded(posted) {
      LoadReads(posted);
    }
  }

  lemma SuffixBetween(s: seq<string>, t: seq<string>, lmin: nat, lmax: nat)
    requires IsSuffix(s, t) && Between(t, lmin, lmax)
    ensures Between(s, lmin, lmax)
  {
  }

  // ---------------------------------------------------------------- the bound is exact

  /** An encoded line that takes `size` bytes in the file. */
  function Line(size: nat): (s: string)
    requires size >= 2
    ensures Encoded(s) && |s| == size - 1
  {
    seq(size - 1, i => 'a')
  }

  lemma {:induction false} AsciiLength(s: string)
    requires forall i :: 0 <= i < |s| ==> s[i] == 'a'
    ensures Utf8Len(s) == |s|
  {
    if s != "" {
      AsciiLength(s[..|s| - 1]);
    }
  }

  /** `n` lines within the bounds that take `total` bytes together. */
  lemma {:induction false} Fill(n: nat, total: nat, lmin: nat, lmax: nat) returns (lines: seq<string>)
    requires 2 <= lmin <= lmax && n * lmin <= total <= n * lmax
    ensures |lines| == n && AllEncoded(lines) && Between(lines, lmin, lmax) && Size(lines) == total
  {
    lines := [];
    if n > 0 {
      var m := n - 1;
      Distribute(m, lmin);
      Distribute(m, lmax);
      var size := if total - m * lmin <= lmax then total - m * lmin else lmax;
      var rest := Fill(m, total - size, lmin, lmax);
      AsciiLength(Line(size));
      SizeSnoc(rest, Line(size));
      lines := rest + [Line(size)];
    }
  }

  lemma {:induction false} NoCompaction(posted: seq<string>)
    requires Size(posted) <= MAX_BYTES
    ensures LogAfter(posted) == posted
  {
    if posted != [] {
      NoCompaction(posted[..|posted| - 1]);
      Snoc(posted);
    }
  }

  lemma HalfIsYoung(older: seq<string>, young: seq<string>)
    requires |young| == |older| + 1 <= HALF
    ensures YoungerHalf(older + young) == young
  {
    var log := older + young;
    assert |log| / 2 == |older| && log[|older|..] == young;
  }

  /** Posting `old`, then `young`, then a line that makes the file too full leaves `young`
      and that line, if `older` is one line shorter than `young`. */
  lemma AfterHalf(older: seq<string>, young: seq<string>, line: string, posted: seq<string>)
    requires |young| == |older| + 1 <= HALF && posted == older + young + [line]
    requires Size(older) + Size(young) <= MAX_BYTES < Size(older) + Size(young) + Utf8Len(line) + 1
    ensures LogAfter(posted) == young + [line]
  {
    var log := older + young;
    SizeConcat(older, young);
    assert posted[..|posted| - 1] == log;
    NoCompaction(log);
    HalfIsYoung(older, young);
  }

  lemma OneTooLong(line: string)
    requires Utf8Len(line) + 1 > MAX_BYTES
    ensures Size(LogAfter([line])) > MAX_BYTES
  {
    assert [line][..0] == [] && YoungerHalf([]) == [];
    SizeSnoc([], line);
    assert [] + [line] == [line];
  }

  lemma TogetherBetween(older: seq<string>, young: seq<string>, line: string, lmin: nat, lmax: nat)
    requires AllEncoded(older) && AllEncoded(young) && Encoded(line)
    requires Between(older, lmin, lmax) && Between(young, lmin, lmax) && lmin <= Utf8Len(line) + 1 <= lmax
    ensures AllEncoded(older + young + [line]) && Between(older + young + [line], lmin, lmax)
  {
  }

  /** Limits that do not fit can be exceeded. */
  lemma Overfill(lmin: nat, lmax: nat) returns (posted: seq<string>)
    requires 2 <= lmin <= lmax && !Fits(lmin, lmax)
    ensures AllEncoded(posted) && Between(posted, lmin, lmax) && Size(LogAfter(posted)) > MAX_BYTES
  {
    var line := Line(lmax);
    AsciiLength(line);
    if lmax > MAX_BYTES {
      posted := [line];
      OneTooLong(line);
    } else {
      var m, few, total := OverfillCounts(lmin, lmax);
      var older := Fill(m, few, lmin, lmax);
      var young := Fill(m + 1, total, lmin, lmax);
      posted := older + young + [line];
      TogetherBetween(older, young, line, lmin, lmax);
      AfterHalf(older, young, line, posted);
      SizeSnoc(young, line);
    }
  }

  lemma OverfillCounts(lmin: nat, lmax: nat) returns (m: nat, few: nat, total: nat)
    requires 2 <= lmin <= lmax <= MAX_BYTES && !Fits(lmin, lmax)
    ensures m < HALF && m * lmin <= few <= m * lmax
    ensures (m + 1) * lmin <= total <= (m + 1) * lmax
    ensures total + few <= MAX_BYTES < total + lmax
  {
    var k: nat := MAX_BYTES / lmax;
    FillsWith(k, lmax);
    m := k - 1;
    few := FewLines(lmin, lmax, k, m);
    total := TotalFor(lmax, k * lmin, k * lmax, few);
  }

  lemma FewLines(lmin: nat, lmax: nat, k: nat, m: nat) returns (few: nat)
    requires lmin <= lmax && !Frees(k, lmin, lmax) && k == m + 1
    ensures few == m * lmin < lmax && few <= m * lmax
    ensures k * lmin <= k * lmax && k * lmin + few <= MAX_BYTES
  {
    few := m * lmin;
    MulMonotone2(lmin, lmax, k);
    MulMonotone2(lmin, lmax, m);
    Twice(k, lmin);
  }

  lemma TotalFor(lmax: nat, least: nat, most: nat, few: nat) returns (total: nat)
    requires least <= most <= MAX_BYTES < most + lmax && few < lmax && least + few <= MAX_BYTES
    ensures least <= total <= most && total + few <= MAX_BYTES < total + lmax
  {
    total := if most <= MAX_BYTES - few then most else MAX_BYTES - few;
  }

  /** `k` is the number of longest lines that a file can hold. */
  lemma FillsWith(k: nat, lmax: nat)
    requires 0 < lmax <= MAX_BYTES && k == MAX_BYTES / lmax && (HALF + 1) * lmax > MAX_BYTES
    ensures 1 <= k <= HALF && k * lmax <= MAX_BYTES < k * lmax + lmax
  {
    if k > HALF {
      MulMonotone(HALF + 1, k, lmax);
    }
  }

  lemma Twice(k: nat, c: nat)
    requires k >= 1
    ensures (2 * k - 1) * c == k * c + (k - 1) * c
  {
  }

  lemma MulMonotone2(a: nat, b: nat, c: nat)
    requires a <= b
    ensures c * a <= c * b
  {
  }

  /** For every pair of bounds on the lines: whatever is posted within them, the file stays
      within its limit, exactly when the bounds fit. Every encoded line has at least two bytes. */
  lemma FitsExactly(lmin: nat, lmax: nat)
    requires 2 <= lmin <= lmax
    ensures (forall posted :: AllEncoded(posted) && Between(posted, lmin, lmax) ==> Size(LogAfter(posted)) <= MAX_BYTES)
            <==> Fits(lmin, lmax)
  {
    if Fits(lmin, lmax) {
      forall posted | AllEncoded(posted) && Between(posted, lmin, lmax) ensures Size(LogAfter(posted)) <= MAX_BYTES {
        NeverTooLarge(posted, lmin, lmax);
      }
    } else {
      var posted := Overfill(lmin, lmax);
    }
  }

  /** The limits fit the messages of the application: an empty message encodes to at least
      121 bytes, and one of 4096 escaped bytes from a 32-byte sender to at most 24,800. */
  lemma ApplicationLimitsFit()
    ensures Fits(121, 24800)
  {
  }

  /** Two lines make the file too large exactly when they do not fit it together: compaction
      keeps the younger half of one line, which is that line. */
  lemma TwoLinesExceed(a: string, b: string)
    ensures Size(LogAfter([a] + [b])) > MAX_BYTES
            <==> Utf8Len(a) + 1 + Utf8Len(b) + 1 > MAX_BYTES
  {
    assert ([a] + [b])[..1] == [a] && [a][..0] == [] && YoungerHalf([]) == [];
    assert LogAfter([a]) == [a] && YoungerHalf([a]) == [a];
    SizeSnoc([a], b);
    SizeSnoc([], a);
    assert [] + [a] == [a];
  }

  /** One line that does not fit the file: whatever it held, nothing can be read afterwards. */
  lemma LongMessageBlocksReading(content: string, line: string)
    requires Utf8Len(line) >= MAX_BYTES
    ensures Loaded(Appended(content, line)) == None
  {
    var kept := if Utf8Len(content) + Utf8Len(line) + 1 > MAX_BYTES then Print(YoungerHalf(Entries(Lines(content)))) else content;
    Utf8LenConcat(kept, line);
    Utf8LenConcat(kept + line, "\n");
    assert "\n"[..0] == "";
  }
}
