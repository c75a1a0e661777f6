/** Strings are sequences of Unicode scalar values. This module holds the pieces of the
    Rust string library that the modelled code relies on: white space, trimming, lines,
    UTF-8 and UTF-16 lengths, and substring search. */
module Text {

  datatype Option<+T> = None | Some(value: T)

  datatype Result<+T, +E> = Ok(value: T) | Err(error: E)

  /** The White_Space property, as used by `char::is_whitespace` and `str::trim`. */
  predicate IsWhitespace(c: char) {
    var n := c as int;
    || 9 <= n <= 13 || n == 0x20 || n == 0x85 || n == 0xA0 || n == 0x1680
    || 0x2000 <= n <= 0x200A || n == 0x2028 || n == 0x2029 || n == 0x202F
    || n == 0x205F || n == 0x3000
  }

  function TrimStart(s: string): (r: string)
    ensures |r| <= |s|
    ensures r == "" || !IsWhitespace(r[0])
    ensures s == "" || !IsWhitespace(s[0]) ==> r == s
  {
    if s != "" && IsWhitespace(s[0]) then TrimStart(s[1..]) else s
  }

  function TrimEnd(s: string): (r: string)
    ensures r <= s
    ensures r == "" || !IsWhitespace(r[|r| - 1])
    ensures s == "" || !IsWhitespace(s[|s| - 1]) ==> r == s
  {
    if s != "" && IsWhitespace(s[|s| - 1]) then TrimEnd(s[..|s| - 1]) else s
  }

  function Trim(s: string): (r: string)
    ensures Trimmed(r)
    ensures Trimmed(s) ==> r == s
    ensures |r| <= |s|
  {
    TrimEnd(TrimStart(s))
  }

  /** A string that `str::trim` leaves alone. */
  predicate Trimmed(s: string) {
    s == "" || (!IsWhitespace(s[0]) && !IsWhitespace(s[|s| - 1]))
  }

  /** An ASCII letter or digit, or an underscore. */
  predicate IsWordChar(c: char) {
    'a' <= c <= 'z' || 'A' <= c <= 'Z' || '0' <= c <= '9' || c == '_'
  }

  function Utf8Width(c: char): (n: nat)
    ensures 1 <= n <= 4
  {
    var v := c as int;
    if v < 0x80 then 1 else if v < 0x800 then 2 else if v < 0x10000 then 3 else 4
  }

  /** The byte length of a string, `str::len`. */
  function Utf8Len(s: string): (n: nat)
    ensures |s| <= n
  {
    if s == "" then 0 else Utf8Len(s[..|s| - 1]) + Utf8Width(s[|s| - 1])
  }

  function Utf16Width(c: char): (n: nat)
    ensures 1 <= n <= 2
  {
    if c as int < 0x10000 then 1 else 2
  }

  function Utf16Len(s: string): (n: nat)
    ensures |s| <= n
  {
    if s == "" then 0 else Utf16Len(s[..|s| - 1]) + Utf16Width(s[|s| - 1])
  }

  lemma {:induction false} Utf8LenConcat(a: string, b: string)
    ensures Utf8Len(a + b) == Utf8Len(a) + Utf8Len(b)
  {
    if b == "" {
      assert a + b == a;
    } else {
      assert (a + b)[..|a + b| - 1] == a + b[..|b| - 1];
      Utf8LenConcat(a, b[..|b| - 1]);
    }
  }

  lemma {:induction false} Utf16LenConcat(a: string, b: string)
    ensures Utf16Len(a + b) == Utf16Len(a) + Utf16Len(b)
  {
    if b == "" {
      assert a + b == a;
    } else {
      assert (a + b)[..|a + b| - 1] == a + b[..|b| - 1];
      Utf16LenConcat(a, b[..|b| - 1]);
    }
  }

  lemma Assoc<T>(a: seq<T>, b: seq<T>, c: seq<T>)
    ensures (a + b) + c == a + (b + c)
  {
  }

  /** The first index of `c` in `s`, or `|s|`. */
  function IndexOf(s: string, c: char): (k: nat)
    ensures k <= |s|
    ensures k < |s| ==> s[k] == c
    ensures forall i :: 0 <= i < k ==> s[i] != c
  {
    if s == "" || s[0] == c then 0 else
      var k := IndexOf(s[1..], c);
      assert forall i :: 1 <= i < |s| ==> s[i] == s[1..][i - 1];
      k + 1
  }

  /** A line loses a carriage return that stood right before its line feed. */
  function StripCr(s: string): (r: string)
    ensures r <= s
  {
    if s != "" && s[|s| - 1] == '\r' then s[..|s| - 1] else s
  }

  /** `str::lines`. */
  function Lines(s: string): (ls: seq<string>)
  {
    if s == "" then [] else
      var k := IndexOf(s, '\n');
      if k == |s| then [s] else [StripCr(s[..k])] + Lines(s[k + 1..])
  }

  lemma IndexOfPrefix(line: string, c: char, rest: string)
    requires c !in line
    ensures IndexOf(line + [c] + rest, c) == |line|
  {
    var s := line + [c] + rest;
    assert s[|line|] == c;
    assert forall i :: 0 <= i < |line| ==> s[i] == line[i];
  }

  /** Reading back a line that was printed with a line feed. */
  lemma LinesCons(line: string, rest: string)
    requires '\n' !in line
    ensures Lines(line + "\n" + rest) == [StripCr(line)] + Lines(rest)
  {
    var s := line + "\n" + rest;
    IndexOfPrefix(line, '\n', rest);
    assert s[..|line|] == line && s[|line| + 1..] == rest;
  }

  /** `needle` stands at offset `i` of `s`. */
  predicate OccursAt(s: string, needle: string, i: nat) {
    i + |needle| <= |s| && s[i..i + |needle|] == needle
  }

  /** `str::find` from offset `from`: the leftmost occurrence at or after it. */
  function Find(s: string, needle: string, from: nat): (r: Option<nat>)
    requires from <= |s|
    ensures r.Some? ==> from <= r.value <= |s| && OccursAt(s, needle, r.value)
    ensures r.Some? ==> forall i :: from <= i < r.value ==> !OccursAt(s, needle, i)
    ensures r.None? ==> forall i :: from <= i <= |s| ==> !OccursAt(s, needle, i)
    decreases |s| - from
  {
    if OccursAt(s, needle, from) then Some(from)
    else if from == |s| then None
    else Find(s, needle, from + 1)
  }

  function AsciiLower(c: char): char {
    if 'A' <= c <= 'Z' then (c as int + 32) as char else c
  }

  /** `eq_ignore_ascii_case` compares these. */
  function Fold(s: string): (r: string)
    ensures |r| == |s|
  {
    seq(|s|, i requires 0 <= i < |s| => AsciiLower(s[i]))
  }
}
